/** Compaction of a metadata log: lfs_dir_traverse with its filter, and the split of a log that is too long. */
module Compaction {
  import opened Bits
  import opened Words
  import opened MetaLog

  /** lfs_dir_traverse_filter: None when a later tag makes t redundant, else t with its id adjusted. */
  function Filter1(t: Tag, later: Tag): Option<Tag> {
    var same := t.id == later.id && (if IsUnique(later.ty) then t.ty == later.ty else Type1(t.ty) == Type1(later.ty));
    if same || IsDeletion(t) || (later.ty == TYPE_DELETE && later.id == t.id) then None
    else if IsSplice(later) && later.id <= t.id then Some(t.(id := NewId(t.id, later.ty)))
    else Some(t)
  }

  /** An id after a splice; never negative, because only a deletion of a smaller id lowers it. */
  function NewId(id: nat, ty: nat): nat {
    if id + Splice(ty) >= 0 then id + Splice(ty) else 0
  }

  /** The filter over all later entries. */
  function Filter(t: Tag, later: seq<Entry>): Option<Tag>
    decreases |later|
  {
    if later == [] then Some(t)
    else match Filter1(t, later[0].tag)
      case None => None
      case Some(t') => Filter(t', later[1..])
  }

  /** What lfs_dir_traverse passes to its callback for the first entry of a log. */
  function Emit1(e: Entry, later: seq<Entry>, begin: nat, end: nat): seq<Entry> {
    if e.tag.ty >= 0x400 then []
    else match Filter(e.tag, later)
      case None => []
      case Some(t) => if begin <= t.id < end then [Entry(t.(id := t.id - begin), e.data)] else []
  }

  /** What lfs_dir_traverse passes to its callback for a whole log. */
  function Emit(log: seq<Entry>, begin: nat, end: nat): seq<Entry> {
    if log == [] then []
    else Emit1(log[0], log[1..], begin, end) + Emit(log[1..], begin, end)
  }

  function LogSize(log: seq<Entry>): nat {
    if log == [] then 0 else LogSize(log[..|log| - 1]) + DiskSize(log[|log| - 1].tag.size)
  }

  // ----- the callback loops

  /** The nested lfs_dir_traverse call: the filter applied to every tag after the current one. */
  method FilterScan(t: Tag, log: seq<Entry>, from: nat) returns (r: Option<Tag>)
    requires from <= |log|
    ensures r == Filter(t, log[from..])
  {
    var tag := t;
    var i := from;
    while i < |log|
      invariant from <= i <= |log|
      invariant Filter(t, log[from..]) == Filter(tag, log[i..])
    {
      assert log[i..][0] == log[i] && log[i..][1..] == log[i + 1..];
      match Filter1(tag, log[i].tag) {
        case None => return None;
        case Some(tag') => tag := tag';
      }
      i := i + 1;
    }
    return Some(tag);
  }

  /** lfs_dir_traverse with a callback that collects the entries it is given. */
  method Traverse(log: seq<Entry>, begin: nat, end: nat) returns (out: seq<Entry>)
    ensures out == Emit(log, begin, end)
  {
    hide Emit, Emit1;
    out := [];
    var i := 0;
    assert log[0..] == log;
    while i < |log|
      invariant 0 <= i <= |log|
      invariant out + Emit(log[i..], begin, end) == Emit(log, begin, end)
    {
      EmitUnfold(log, i, begin, end);
      var piece := Visit(log, i, begin, end);
      out := out + piece;
      i := i + 1;
    }
    assert log[i..] == [];
    EmitEnds(begin, end);
  }

  lemma EmitUnfold(log: seq<Entry>, i: nat, begin: nat, end: nat)
    requires i < |log|
    ensures Emit(log[i..], begin, end) == Emit1(log[i], log[i + 1..], begin, end) + Emit(log[i + 1..], begin, end)
  {
    hide Emit1;
    assert log[i..][0] == log[i] && log[i..][1..] == log[i + 1..];
  }

  lemma EmitEnds(begin: nat, end: nat)
    ensures Emit([], begin, end) == []
  {
  }

  /** One round of the loop of lfs_dir_traverse. */
  method Visit(log: seq<Entry>, i: nat, begin: nat, end: nat) returns (out: seq<Entry>)
    requires i < |log|
    ensures out == Emit1(log[i], log[i + 1..], begin, end)
  {
    var e := log[i];
    if e.tag.ty >= 0x400 {
      return [];
    }
    var r := FilterScan(e.tag, log, i + 1);
    if r == None || !(begin <= r.value.id < end) {
      return [];
    }
    out := [Entry(r.value.(id := r.value.id - begin), e.data)];
  }

  /** lfs_dir_traverse with lfs_dir_commit_size. */
  method TraverseSize(log: seq<Entry>, begin: nat, end: nat) returns (size: nat)
    ensures size == LogSize(Emit(log, begin, end))
  {
    var out := Traverse(log, begin, end);
    size := 0;
    for i := 0 to |out|
      invariant size == LogSize(out[..i])
    {
      assert out[..i + 1][..i] == out[..i];
      size := size + DiskSize(out[i].tag.size);
    }
    assert out[..|out|] == out;
  }

  // ----- the meaning of the emitted log

  ghost predicate NoSplices(log: seq<Entry>) {
    forall e :: e in log ==> e.tag.ty < 0x400
  }

  /** One later entry: the filter takes an id forward exactly where the search takes it backward. */
  lemma FilterInvertsLook(t: Tag, e: Entry, id: nat)
    requires t.ty < 0x400 && !IsDeletion(t)
    requires IsSplice(e.tag) ==> e.tag.ty == TYPE_CREATE || e.tag.ty == TYPE_DELETE
    ensures Filter1(t, e.tag).Some? && Filter1(t, e.tag).value.id == id <==> LookAt(e, Key(t.ty), id) == Open(t.id)
    ensures Filter1(t, e.tag).Some? ==> Filter1(t, e.tag).value == t.(id := Filter1(t, e.tag).value.id)
  {
  }

  lemma {:induction false} WalkStaysNatural(log: seq<Entry>, key: nat, id: nat)
    requires GoodSplices(log)
    ensures Walk(log, key, id).Open? ==> Walk(log, key, id).id >= 0
    decreases |log|
  {
    if log != [] {
      var r := LookAt(log[|log| - 1], key, id);
      if r.Open? {
        WalkStaysNatural(log[..|log| - 1], key, r.id);
      }
    }
  }

  /** The adjusted id stays below the number of files, so it never outgrows its field of the tag. */
  lemma FilterStaysBelowCount(files: Files, t: Tag, later: Entry)
    requires t.id < |files| && Fits(files, later)
    requires IsSplice(later.tag) ==> later.tag.ty == TYPE_CREATE || later.tag.ty == TYPE_DELETE
    ensures Filter1(t, later.tag).Some? ==> Filter1(t, later.tag).value.id < |Replay1(files, later)|
  {
  }

  /** All later entries: t survives with final id exactly when a search for its key at id comes through to t. */
  lemma {:induction false} FilterInvertsWalk(t: Tag, later: seq<Entry>, id: nat)
    requires t.ty < 0x400 && !IsDeletion(t) && GoodSplices(later)
    ensures Filter(t, later) == Some(t.(id := id)) <==> Walk(later, Key(t.ty), id) == Open(t.id)
    ensures Filter(t, later).Some? ==> Filter(t, later).value == t.(id := Filter(t, later).value.id)
    decreases |later|
  {
    if later != [] {
      var e, rest := later[0], later[1..];
      var key := Key(t.ty);
      assert later == [e] + rest;
      WalkConcat([e], rest, key, id);
      WalkOne(e, key);
      WalkStaysNatural(rest, key, id);
      var r := Walk(rest, key, id);
      if r.Open? {
        FilterInvertsLook(t, e, r.id);
      }
      FilterKeepsFields(t, e.tag);
      if Filter1(t, e.tag).Some? {
        FilterInvertsWalk(Filter1(t, e.tag).value, rest, id);
      }
      hide Filter1, LookAt, Walk, Key;
    }
  }

  lemma WalkOne(e: Entry, key: nat)
    ensures forall id: int :: Walk([e], key, id) == LookAt(e, key, id)
  {
    forall id: int ensures Walk([e], key, id) == LookAt(e, key, id) {
      assert [e][..0] == [];
      var r := LookAt(e, key, id);
      if r.Open? {
        assert Walk([], key, r.id) == Open(r.id);
      }
    }
  }

  lemma FilterKeepsFields(t: Tag, later: Tag)
    ensures Filter1(t, later).Some? ==> Filter1(t, later).value == t.(id := Filter1(t, later).value.id)
  {
  }

  // ----- compaction preserves every lookup

  /** What a search of the original log and a search of the emitted log have to do with each other. */
  ghost predicate Agree(original: Search, emitted: Search, id: int) {
    match original
    case Hit(e) => emitted.Hit? && SlotOf(emitted.entry) == SlotOf(e)
    case Gone => emitted == Gone || emitted == Open(id)
    case Open(_) => emitted == Open(id)
  }

  /** A deletion passes the filter only when nothing follows it. */
  lemma DeletionFiltered(t: Tag, later: seq<Entry>)
    requires IsDeletion(t) && later != []
    ensures Filter(t, later) == None
  {
  }

  lemma {:induction false} EmitAgrees(log: seq<Entry>, begin: nat, end: nat, key: nat, id: nat)
    requires GoodSplices(log) && IsFileKey(key) && begin <= id < end
    ensures Agree(Walk(log, key, id), Walk(Emit(log, begin, end), key, id - begin), id - begin)
    decreases |log|
  {
    if log != [] {
      EmitAgrees(log[1..], begin, end, key, id);
      assert log == [log[0]] + log[1..];
      EmitAgreesStep(log[0], log[1..], Emit1(log[0], log[1..], begin, end), Emit(log[1..], begin, end),
                     begin, end, key, id);
    }
    hide LookAt, Emit1, Filter, GoodSplices;
  }

  lemma EmitAgreesStep(e: Entry, rest: seq<Entry>, first: seq<Entry>, others: seq<Entry>,
                       begin: nat, end: nat, key: nat, id: nat)
    requires GoodSplices(rest) && IsFileKey(key) && begin <= id < end
    requires IsSplice(e.tag) ==> e.tag.ty == TYPE_CREATE || e.tag.ty == TYPE_DELETE
    requires first == Emit1(e, rest, begin, end)
    requires Agree(Walk(rest, key, id), Walk(others, key, id - begin), id - begin)
    ensures Agree(Walk([e] + rest, key, id), Walk(first + others, key, id - begin), id - begin)
  {
    hide Walk, LookAt, Emit1, GoodSplices, IsFileKey, IsSplice;
    WalkConcat([e], rest, key, id);
    WalkOne(e, key);
    WalkStaysNatural(rest, key, id);
    WalkConcat(first, others, key, id - begin);
    var r := Walk(rest, key, id);
    if r.Open? {
      Emit1Open(e, rest, begin, end, key, id, r.id);
    } else if r == Gone {
      Emit1Gone(e, rest, begin, end, key, id);
    }
  }

  /** The search comes through the later entries to e: e is emitted at id exactly if e is what it finds. */
  lemma Emit1Open(e: Entry, rest: seq<Entry>, begin: nat, end: nat, key: nat, id: nat, x: nat)
    requires GoodSplices(rest) && IsFileKey(key) && begin <= id < end
    requires IsSplice(e.tag) ==> e.tag.ty == TYPE_CREATE || e.tag.ty == TYPE_DELETE
    requires Walk(rest, key, id) == Open(x)
    ensures Agree(LookAt(e, key, x), Walk(Emit1(e, rest, begin, end), key, id - begin), id - begin)
  {
    if e.tag.ty < 0x400 && IsDeletion(e.tag) && rest != [] {
      DeletionFiltered(e.tag, rest);
    }
    if e.tag.ty < 0x400 && !IsDeletion(e.tag) {
      FilterInvertsWalk(e.tag, rest, id);
    }
    WalkEmitted(Emit1(e, rest, begin, end), key, id - begin);
    hide Walk;
  }

  /** The search ended in the later entries: e is not emitted at id under this key. */
  lemma Emit1Gone(e: Entry, rest: seq<Entry>, begin: nat, end: nat, key: nat, id: nat)
    requires GoodSplices(rest) && IsFileKey(key) && begin <= id < end
    requires Walk(rest, key, id) == Gone
    ensures Agree(Gone, Walk(Emit1(e, rest, begin, end), key, id - begin), id - begin)
  {
    if e.tag.ty < 0x400 && IsDeletion(e.tag) {
      DeletionFiltered(e.tag, rest);
    }
    if e.tag.ty < 0x400 && !IsDeletion(e.tag) {
      FilterInvertsWalk(e.tag, rest, id);
    }
    WalkEmitted(Emit1(e, rest, begin, end), key, id - begin);
    hide Walk;
  }

  /** Searching a log of at most one entry that is no splice. */
  lemma WalkEmitted(log: seq<Entry>, key: nat, id: int)
    requires |log| <= 1 && NoSplices(log)
    ensures Walk(log, key, id) ==
      if log != [] && Key(log[0].tag.ty) == key && log[0].tag.id == id
      then (if IsDeletion(log[0].tag) then Gone else Hit(log[0]))
      else Open(id)
  {
    if log != [] {
      assert log == [log[0]];
      WalkOne(log[0], key);
    }
  }

  /** Compaction preserves meaning: the emitted log answers every lookup in the range as the original does. */
  lemma EmitKeepsLookups(log: seq<Entry>, begin: nat, end: nat, key: nat, id: nat)
    requires GoodSplices(log) && IsFileKey(key) && begin <= id < end
    ensures Lookup(Emit(log, begin, end), key, id - begin) == Lookup(log, key, id)
  {
    EmitAgrees(log, begin, end, key, id);
  }

  // ----- compaction with splits

  /** A metadata pair written by a compaction: its log and the number of files in it. */
  datatype Piece = Piece(log: seq<Entry>, count: nat)

  datatype Result = Written(pieces: seq<Piece>) | NoSpace

  /** A lookup in a directory that spans several pairs: the ids run on from one pair to the next. */
  function PieceLookup(pieces: seq<Piece>, key: nat, id: nat): Option<Slot> {
    if pieces == [] then None
    else if id < pieces[0].count then Lookup(pieces[0].log, key, id)
    else PieceLookup(pieces[1..], key, id - pieces[0].count)
  }

  function TotalCount(pieces: seq<Piece>): nat {
    if pieces == [] then 0 else pieces[0].count + TotalCount(pieces[1..])
  }

  /** The pieces hold the files begin..end of the log, and nothing else. */
  ghost predicate Hold(pieces: seq<Piece>, log: seq<Entry>, begin: nat, end: nat) {
    && begin <= end && TotalCount(pieces) == end - begin
    && forall key, id: nat :: IsFileKey(key) && id < end - begin ==>
         PieceLookup(pieces, key, id) == Lookup(log, key, begin + id)
  }

  lemma HoldNothing(log: seq<Entry>, at: nat)
    ensures Hold([], log, at, at)
  {
  }

  lemma {:induction false} PieceLookupConcat(a: seq<Piece>, b: seq<Piece>, key: nat, id: nat)
    ensures TotalCount(a + b) == TotalCount(a) + TotalCount(b)
    ensures PieceLookup(a + b, key, id)
      == if id < TotalCount(a) then PieceLookup(a, key, id) else PieceLookup(b, key, id - TotalCount(a))
    decreases |a|
  {
    if a == [] {
      assert a + b == b;
    } else {
      assert (a + b)[1..] == a[1..] + b;
      PieceLookupConcat(a[1..], b, key, if id < a[0].count then 0 else id - a[0].count);
    }
  }

  /** Head and tail of a split together hold what the whole range held. */
  lemma HoldConcat(a: seq<Piece>, b: seq<Piece>, log: seq<Entry>, begin: nat, split: nat, end: nat)
    requires Hold(a, log, begin, split) && Hold(b, log, split, end)
    ensures Hold(a + b, log, begin, end)
  {
    hide Lookup, IsFileKey, PieceLookup, TotalCount;
    PieceLookupConcat(a, b, 0, 0);
    forall key, id: nat | IsFileKey(key) && id < end - begin
      ensures PieceLookup(a + b, key, id) == Lookup(log, key, begin + id)
    {
      PieceLookupConcat(a, b, key, id);
      if id >= split - begin {
        assert begin + id == split + (id - (split - begin));
      }
    }
  }

  lemma HoldPiece(log: seq<Entry>, begin: nat, end: nat)
    requires GoodSplices(log) && begin <= end
    ensures Hold([Piece(Emit(log, begin, end), end - begin)], log, begin, end)
  {
    hide Lookup, IsFileKey, Emit, GoodSplices;
    var pieces := [Piece(Emit(log, begin, end), end - begin)];
    assert pieces[1..] == [];
    assert TotalCount(pieces) == end - begin + TotalCount([]);
    forall key, id: nat | IsFileKey(key) && id < end - begin
      ensures PieceLookup(pieces, key, id) == Lookup(log, key, begin + id)
    {
      EmitKeepsLookups(log, begin, end, key, begin + id);
    }
  }

  lemma {:induction false} EmitNothing(log: seq<Entry>, begin: nat)
    ensures Emit(log, begin, begin) == []
  {
    hide Filter;
    if log != [] {
      EmitNothing(log[1..], begin);
    }
  }

  /** The room that lfs_dir_compact leaves for the entries of one pair. */
  function Room(blockSize: nat, progSize: nat): nat
    requires blockSize >= 36 && progSize > 0
  {
    Min(blockSize - 36, AlignUp(blockSize / 2, progSize))
  }

  /** What this room leaves for the revision count, the tail and the global state, in front of a checksum: 28 bytes, or
      what half a block leaves. */
  lemma RoomLeaves(blockSize: nat, progSize: nat, reserved: nat)
    requires blockSize >= 36 && progSize > 0
    ensures reserved + Room(blockSize, progSize) <= blockSize - 8 <==>
      reserved <= 28 || reserved + AlignUp(blockSize / 2, progSize) <= blockSize - 8
  {
    hide AlignUp;
  }

  /** The files fit into one pair as they are. */
  ghost predicate FitTogether(blockSize: nat, progSize: nat, log: seq<Entry>, begin: nat, end: nat)
    requires blockSize >= 36 && progSize > 0
  {
    end - begin <= 1 || (end - begin < 0xff && LogSize(Emit(log, begin, end)) <= Room(blockSize, progSize))
  }

  lemma FitTogetherIs(blockSize: nat, progSize: nat, log: seq<Entry>, begin: nat, end: nat)
    requires blockSize >= 36 && progSize > 0
    ensures FitTogether(blockSize, progSize, log, begin, end)
      <==> end - begin <= 1 || (end - begin < 0xff && LogSize(Emit(log, begin, end)) <= Room(blockSize, progSize))
  {
    hide Emit, LogSize, Room;
  }

  /** The pair is as small as the loop makes it while there are others. */
  ghost predicate IsSmall(blockSize: nat, progSize: nat, p: Piece)
    requires blockSize >= 36 && progSize > 0
  {
    p.count <= 1 || (p.count < 0xff && LogSize(p.log) <= Room(blockSize, progSize))
  }

  lemma SmallIs(blockSize: nat, progSize: nat, p: Piece)
    requires blockSize >= 36 && progSize > 0
    requires p.count <= 1 || (p.count < 0xff && LogSize(p.log) <= Room(blockSize, progSize))
    ensures IsSmall(blockSize, progSize, p)
  {
    hide LogSize, Room;
  }

  /** Without another pair, everything goes into one, as far as that has the space. */
  ghost predicate FitAlone(blockSize: nat, reserved: nat, log: seq<Entry>, begin: nat, end: nat) {
    var size := LogSize(Emit(log, begin, end));
    reserved + size <= blockSize - 8 && (end - begin <= 1 || size <= blockSize - 36)
  }

  lemma FitAloneIs(blockSize: nat, progSize: nat, reserved: nat, log: seq<Entry>, begin: nat, end: nat)
    requires blockSize >= 36 && progSize > 0
    ensures Room(blockSize, progSize) <= blockSize - 36
    ensures FitAlone(blockSize, reserved, log, begin, end)
      <==> reserved + LogSize(Emit(log, begin, end)) <= blockSize - 8
           && (end - begin <= 1 || LogSize(Emit(log, begin, end)) <= blockSize - 36)
  {
    hide Emit, LogSize, AlignUp;
  }

  /** 28 bytes are too little for all three, which take 4, 12 and 16: when a program unit is a whole block, two files
      can be taken to fit together, and be refused, although there is room for each of them in a block of its own. */
  lemma RoomTooSmall(data: seq<byte>)
    requires |data| == 234
    ensures var log := [Entry(Tag(0x001, 0, 234), data), Entry(Tag(0x001, 1, 234), data)];
      && FitTogether(512, 512, log, 0, 2) && 4 + 12 + 16 + LogSize(Emit(log, 0, 2)) > 512 - 8
      && 4 + 12 + 16 + LogSize(Emit(log, 0, 1)) <= 512 - 8 && 4 + 12 + 16 + LogSize(Emit(log, 1, 2)) <= 512 - 8
  {
    hide Emit, LogSize, AlignUp;
    var a, b := Entry(Tag(0x001, 0, 234), data), Entry(Tag(0x001, 1, 234), data);
    TwoNames(a, b);
    SizeOfNames(a, b);
    SizeOfNames(a, a);
    UpToOne(256, 512);
  }

  lemma TwoNames(a: Entry, b: Entry)
    requires a.tag == Tag(0x001, 0, 234) && b.tag == Tag(0x001, 1, 234)
    ensures Emit([a, b], 0, 2) == [a, b] && Emit([a, b], 0, 1) == [a]
    ensures Emit([a, b], 1, 2) == [Entry(Tag(0x001, 0, 234), b.data)]
  {
    NameStays(a, b);
    forall begin, end: nat ensures Emit([a, b], begin, end) == Emit1(a, [b], begin, end) + Emit1(b, [], begin, end) {
      assert [a, b][1..] == [b] && [b][1..] == [];
      assert Emit([b], begin, end) == Emit1(b, [], begin, end) + Emit([], begin, end);
    }
  }

  lemma NameStays(a: Entry, b: Entry)
    requires a.tag == Tag(0x001, 0, 234) && b.tag == Tag(0x001, 1, 234)
    ensures Filter(a.tag, [b]) == Some(a.tag) && Filter(b.tag, []) == Some(b.tag)
  {
    assert [b][1..] == [];
    assert Filter1(a.tag, b.tag) == Some(a.tag);
  }

  lemma SizeOfNames(a: Entry, b: Entry)
    requires a.tag.size == 234 && b.tag.size == 234
    ensures LogSize([a, b]) == 476 && LogSize([a]) == 238
  {
    assert [a, b][..1] == [a] && [a][..0] == [];
    assert LogSize([a]) == LogSize([]) + DiskSize(234);
  }

  lemma UpToOne(a: nat, n: nat)
    requires 0 < a <= n
    ensures AlignUp(a, n) == n
  {
    hide AlignDown;
    AlignDownMultiple(a + n - 1, n);
    DivUnique(a + n - 1, n, 1, a - 1);
  }

  /** Nothing stands in the way of a compaction: a pair for every id but the first, a block for the entries of any
      single id, and a block for as many entries as a pair may get when it has several. reserved says how many bytes go
      to the revision count, the tail and the global state. */
  ghost predicate Enough(blockSize: nat, progSize: nat, reserved: nat -> nat, log: seq<Entry>, begin: nat, end: nat,
                         pairs: nat)
    requires blockSize >= 36 && progSize > 0
  {
    && end - begin <= pairs + 1
    && (forall b: nat :: begin <= b <= end ==> reserved(b) + Room(blockSize, progSize) <= blockSize - 8)
    && (forall b: nat :: begin <= b < end ==> reserved(b) + LogSize(Emit(log, b, b + 1)) <= blockSize - 8)
  }

  lemma EnoughBehind(blockSize: nat, progSize: nat, reserved: nat -> nat, log: seq<Entry>, begin: nat, end: nat,
                     pairs: nat, split: nat, last: nat, pairs': nat)
    requires blockSize >= 36 && progSize > 0 && Enough(blockSize, progSize, reserved, log, begin, end, pairs)
    requires begin <= split <= last <= end && last - split <= pairs' + 1
    ensures Enough(blockSize, progSize, reserved, log, split, last, pairs')
  {
    hide Emit, LogSize, Room;
  }

  lemma EnoughPairs(blockSize: nat, progSize: nat, reserved: nat -> nat, log: seq<Entry>, begin: nat, end: nat,
                    pairs: nat)
    requires blockSize >= 36 && progSize > 0 && Enough(blockSize, progSize, reserved, log, begin, end, pairs)
    ensures end - begin <= pairs + 1
  {
    hide Emit, LogSize, Room;
  }

  /** What is left when the loop of lfs_dir_compact ends can be written. */
  lemma EnoughToWrite(blockSize: nat, progSize: nat, reserved: nat -> nat, log: seq<Entry>, begin: nat, end: nat,
                      pairs: nat, last: nat)
    requires blockSize >= 36 && progSize > 0 && Enough(blockSize, progSize, reserved, log, begin, end, pairs)
    requires begin <= last <= end
    requires last - begin > 1 ==> LogSize(Emit(log, begin, last)) <= Room(blockSize, progSize)
    ensures reserved(begin) + LogSize(Emit(log, begin, last)) <= blockSize - 8
  {
    hide Emit, Room;
    if last == begin {
      EmitNothing(log, begin);
    }
  }

  /** What limits a compaction: block geometry, how many more pairs can be allocated, and how many bytes of
      each block go to its revision count, tail and global state. */
  class Target {
    const blockSize: nat
    const progSize: nat
    const reserved: nat -> nat
    var pairsLeft: nat

    constructor (blockSize: nat, progSize: nat, reserved: nat -> nat, pairsLeft: nat)
      requires blockSize >= 36 && progSize > 0
      ensures this.blockSize == blockSize && this.progSize == progSize && this.reserved == reserved
      ensures this.pairsLeft == pairsLeft
    {
      this.blockSize, this.progSize, this.reserved, this.pairsLeft := blockSize, progSize, reserved, pairsLeft;
    }

    /** lfs_dir_compact without relocation: split until the rest fits, then write it. */
    method Compact(log: seq<Entry>, begin: nat, end: nat) returns (r: Result)
      requires blockSize >= 36 && progSize > 0 && GoodSplices(log) && begin <= end
      modifies this
      ensures r.Written? ==> Hold(r.pieces, log, begin, end)
      ensures r.Written? ==> forall p :: p in r.pieces ==> LogSize(p.log) + 8 <= blockSize
      ensures FitTogether(blockSize, progSize, log, begin, end) ==>
        pairsLeft == old(pairsLeft) && (r.Written? ==> |r.pieces| == 1)
      ensures Enough(blockSize, progSize, reserved, log, begin, end, old(pairsLeft)) ==>
        r.Written? && forall p :: p in r.pieces ==> IsSmall(blockSize, progSize, p)
      ensures old(pairsLeft) == 0 ==> (r.Written? <==> FitAlone(blockSize, reserved(begin), log, begin, end))
      ensures pairsLeft <= old(pairsLeft) && (r.Written? ==> pairsLeft + |r.pieces| <= old(pairsLeft) + 1)
      ensures old(pairsLeft) <= pairsLeft + (if begin < end then end - begin - 1 else 0)
      decreases end - begin, 0
    {
      hide *;
      var last, tails := end, [];
      ghost var pairs := pairsLeft;
      ghost var enough := Enough(blockSize, progSize, reserved, log, begin, end, pairsLeft);
      HoldNothing(log, end);
      FitTogetherIs(blockSize, progSize, log, begin, end);
      FitAloneIs(blockSize, progSize, reserved(begin), log, begin, end);
      while last - begin > 1
        invariant begin <= last <= end && Hold(tails, log, last, end)
        invariant FitTogether(blockSize, progSize, log, begin, end) ==> last == end && tails == [] && pairsLeft == pairs
        invariant enough ==> forall p :: p in tails ==> IsSmall(blockSize, progSize, p)
        invariant pairs == 0 ==> last == end && tails == []
        invariant pairsLeft + |tails| <= pairs
        invariant forall p :: p in tails ==> LogSize(p.log) + 8 <= blockSize
        invariant pairs <= pairsLeft + (end - last) && (begin < end ==> begin < last)
        decreases last - begin
      {
        var size := TraverseSize(log, begin, last);
        if last - begin < 0xff && size <= Room(blockSize, progSize) {
          break;
        }
        var split := (last - begin) / 2;
        if enough {
          EnoughPairs(blockSize, progSize, reserved, log, begin, end, pairs);
          EnoughBehind(blockSize, progSize, reserved, log, begin, end, pairs, begin + split, last, pairsLeft - 1);
        }
        r := Split(log, begin + split, last);
        if r == NoSpace {
          if size <= blockSize - 36 {
            break;
          }
          return;
        }
        HoldConcat(r.pieces, tails, log, begin + split, last, end);
        tails := r.pieces + tails;
        last := begin + split;
      }
      if enough {
        EnoughToWrite(blockSize, progSize, reserved, log, begin, end, pairs, last);
      }
      r := WriteOut(log, begin, last);
      if r.Written? {
        if enough {
          SmallIs(blockSize, progSize, r.pieces[0]);
        }
        HoldConcat(r.pieces, tails, log, begin, last, end);
        r := Written(r.pieces + tails);
      }
    }

    /** lfs_dir_split: allocate a pair for the tail and compact the upper ids into it. */
    method Split(log: seq<Entry>, split: nat, end: nat) returns (r: Result)
      requires blockSize >= 36 && progSize > 0 && GoodSplices(log) && split <= end
      modifies this
      ensures r.Written? ==> Hold(r.pieces, log, split, end)
      ensures r.Written? ==> forall p :: p in r.pieces ==> LogSize(p.log) + 8 <= blockSize
      ensures old(pairsLeft) > 0 && Enough(blockSize, progSize, reserved, log, split, end, old(pairsLeft) - 1) ==>
        r.Written? && forall p :: p in r.pieces ==> IsSmall(blockSize, progSize, p)
      ensures pairsLeft <= old(pairsLeft) && (r.Written? ==> pairsLeft + |r.pieces| <= old(pairsLeft))
      ensures old(pairsLeft) == 0 ==> r == NoSpace
      ensures split < end ==> old(pairsLeft) <= pairsLeft + (end - split)
      decreases end - split, 1
    {
      if pairsLeft == 0 {
        return NoSpace;
      }
      pairsLeft := pairsLeft - 1;
      r := Compact(log, split, end);
    }

    /** Write the emitted entries to the other block of the pair, unless they overflow it. */
    method WriteOut(log: seq<Entry>, begin: nat, end: nat) returns (r: Result)
      requires blockSize >= 36 && GoodSplices(log) && begin <= end
      ensures r.Written? ==> Hold(r.pieces, log, begin, end)
      ensures r.Written? ==> forall p :: p in r.pieces ==> LogSize(p.log) + 8 <= blockSize
      ensures r == NoSpace <==> reserved(begin) + LogSize(Emit(log, begin, end)) > blockSize - 8
      ensures r.Written? ==> r.pieces == [Piece(Emit(log, begin, end), end - begin)]
    {
      hide Hold, LogSize, Emit, GoodSplices;
      HoldPiece(log, begin, end);
      var size := TraverseSize(log, begin, end);
      if reserved(begin) + size > blockSize - 8 {
        return NoSpace;
      }
      var out := Traverse(log, begin, end);
      r := Written([Piece(out, end - begin)]);
    }
  }

  // ----- the count of the emitted log

  /** The count of a whole log, as a fetch computes it. */
  function CountAll(log: seq<Entry>): int {
    if log == [] then 0
    else
      var c := CountAll(log[..|log| - 1]);
      if c < 0 then c else Count1(c, log[|log| - 1].tag)
  }

  ghost predicate IdsBelow(log: seq<Entry>, n: nat) {
    forall e :: e in log ==> e.tag.id < n
  }

  lemma {:induction false} EmitShape(log: seq<Entry>, begin: nat, end: nat)
    requires begin <= end
    ensures NoSplices(Emit(log, begin, end)) && IdsBelow(Emit(log, begin, end), end - begin)
    decreases |log|
  {
    if log != [] {
      EmitShape(log[1..], begin, end);
      FilterType(log[0].tag, log[1..]);
    }
  }

  lemma {:induction false} FilterType(t: Tag, later: seq<Entry>)
    ensures Filter(t, later).Some? ==> Filter(t, later).value.ty == t.ty
    decreases |later|
  {
    if later != [] {
      FilterKeepsFields(t, later[0].tag);
      if Filter1(t, later[0].tag).Some? {
        FilterType(Filter1(t, later[0].tag).value, later[1..]);
      }
    }
  }

  lemma {:induction false} CountBounds(log: seq<Entry>, n: nat)
    requires NoSplices(log) && IdsBelow(log, n)
    ensures 0 <= CountAll(log) <= n
    ensures forall e :: e in log && Type1(e.tag.ty) == TYPE_NAME ==> e.tag.id < CountAll(log)
    decreases |log|
  {
    if log != [] {
      CountBounds(log[..|log| - 1], n);
      assert log == log[..|log| - 1] + [log[|log| - 1]];
      assert log[|log| - 1] in log;
    }
  }

  lemma {:induction false} HitIsEntry(log: seq<Entry>, key: nat, id: nat)
    requires NoSplices(log) && Walk(log, key, id).Hit?
    ensures exists e :: e in log && Key(e.tag.ty) == key && e.tag.id == id
    decreases |log|
  {
    var e := log[|log| - 1];
    assert e in log;
    if LookAt(e, key, id).Open? {
      HitIsEntry(log[..|log| - 1], key, id);
    }
  }

  /** A later fetch of the written pair counts the files that the compaction wrote, if the last one has a name. */
  lemma EmittedCount(log: seq<Entry>, begin: nat, end: nat)
    requires GoodSplices(log) && begin <= end
    requires begin < end ==> Lookup(log, TYPE_NAME, end - 1).Some?
    ensures CountAll(Emit(log, begin, end)) == end - begin
  {
    hide Emit, CountAll, GoodSplices, LookAt, NoSplices, IdsBelow;
    var out := Emit(log, begin, end);
    EmitShape(log, begin, end);
    CountBounds(out, end - begin);
    if begin < end {
      EmitKeepsLookups(log, begin, end, TYPE_NAME, end - 1);
      HitIsEntry(out, TYPE_NAME, end - 1 - begin);
    }
  }
}
