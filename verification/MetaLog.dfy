/** The metadata log of a directory as a sequence of tagged entries: what it means, and how it is searched. */
module MetaLog {
  import opened Words

  /** The fields of a 32-bit tag: 11 bits of type, 10 bits of id, 10 bits of size. */
  datatype Tag = Tag(ty: nat, id: nat, size: nat)

  datatype Entry = Entry(tag: Tag, data: seq<byte>)

  /** What an entry sets its slot to: its type in full, of which the slot may be a part, its size and its data. */
  datatype Slot = Slot(ty: nat, size: nat, data: seq<byte>)

  function SlotOf(e: Entry): Slot { Slot(e.tag.ty, e.tag.size, e.data) }

  datatype Option<+T> = None | Some(value: T)

  const TYPE_NAME: nat := 0x000
  const TYPE_SPLICE: nat := 0x400
  const TYPE_CREATE: nat := 0x401
  const TYPE_DELETE: nat := 0x4ff
  const TYPE_CRC: nat := 0x500
  const TYPE_TAIL: nat := 0x600

  // the id of entries that belong to no file
  const NO_ID: nat := 0x3ff

  // the size that marks a deleted attribute
  const DELETED_SIZE: nat := 0x3ff

  /** lfs_tag_type1: the type with its chunk bits cleared. */
  function Type1(ty: nat): nat { ty - ty % 0x100 }

  /** Types with this bit name one attribute each; the others share one slot for each value of Type1. */
  predicate IsUnique(ty: nat) { ty / 0x100 % 2 == 1 }

  /** The slot of a file that an entry of this type sets. */
  function Key(ty: nat): nat { if IsUnique(ty) then ty else Type1(ty) }

  /** All names are one slot of a file and all structs another one, and each user attribute is one of its own. */
  lemma SlotsOfFiles(ty: nat)
    ensures ty < 0x100 ==> Key(ty) == TYPE_NAME
    // LFS_TYPE_STRUCT and LFS_TYPE_USERATTR
    ensures 0x200 <= ty < 0x300 ==> Key(ty) == 0x200
    ensures 0x300 <= ty < 0x400 ==> Key(ty) == ty
  {
  }

  /** Not the name of a superblock, which has a type of its own among the names. */
  predicate IsFileName(ty: nat) { Type1(ty) == TYPE_NAME ==> ty < 0x80 }

  /** lfs_tag_splice: the chunk as a signed 8-bit number. */
  function Splice(ty: nat): int { if ty % 0x100 < 0x80 then ty % 0x100 else ty % 0x100 - 0x100 }

  predicate IsSplice(tag: Tag) { Type1(tag.ty) == TYPE_SPLICE }

  /** lfs_tag_isdelete. */
  predicate IsDeletion(tag: Tag) { tag.size == DELETED_SIZE }

  /** lfs_tag_dsize: the bytes of a stored tag of this size, the tag included. */
  function DiskSize(size: nat): nat { 4 + (if size == DELETED_SIZE then 0 else size) }

  /** A key that entries about a file can have: a name, a struct or a user attribute. */
  predicate IsFileKey(key: nat) { key < 0x400 && key == Key(key) }

  /** Every splice of the log creates or deletes one id. */
  predicate GoodSplices(log: seq<Entry>) {
    forall e :: e in log && IsSplice(e.tag) ==> e.tag.ty == TYPE_CREATE || e.tag.ty == TYPE_DELETE
  }

  /** The outcome of a backward search: an entry, a tag that ends the search, or the id to go on with. */
  datatype Search = Hit(entry: Entry) | Gone | Open(id: int)

  /** One step of the loop of lfs_dir_getslice: look at one entry for key at id. */
  function LookAt(e: Entry, key: nat, id: int): Search {
    var t := e.tag;
    var id' := if IsSplice(t) && t.id <= id then id - Splice(t.ty) else id;
    if IsSplice(t) && t.ty == TYPE_CREATE && t.id == id then Gone
    else if Key(t.ty) == key && t.id == id' then if IsDeletion(t) then Gone else Hit(e)
    else Open(id')
  }

  /** The loop of lfs_dir_getslice, from the last entry to the first. */
  function Walk(log: seq<Entry>, key: nat, id: int): Search {
    if log == [] then Open(id)
    else
      var r := LookAt(log[|log| - 1], key, id);
      if r.Open? then Walk(log[..|log| - 1], key, r.id) else r
  }

  /** What lfs_dir_getslice finds; nothing is LFS_ERR_NOENT. */
  function Lookup(log: seq<Entry>, key: nat, id: int): Option<Slot> {
    match Walk(log, key, id)
    case Hit(e) => Some(SlotOf(e))
    case Gone => None
    case Open(_) => None
  }

  /** The id that a search goes back with always fits into its field of the tag. */
  ghost predicate Stays(log: seq<Entry>, key: nat, id: int) {
    && 0 <= id < NO_ID
    && (log != [] ==>
          var r := LookAt(log[|log| - 1], key, id);
          r.Open? ==> Stays(log[..|log| - 1], key, r.id))
  }

  /** The search does not come to the name of a superblock, which the mask of a search for names leaves out. */
  ghost predicate NamesOnly(log: seq<Entry>, key: nat, id: int) {
    log != [] ==>
      var e := log[|log| - 1];
      && (e.tag.id == id ==> IsFileName(e.tag.ty))
      && (var r := LookAt(e, key, id); r.Open? ==> NamesOnly(log[..|log| - 1], key, r.id))
  }

  /** In the log of the root directory, where the superblock is the file 0 from the first entry on, searches for other
      files do not come to it. */
  lemma {:induction false} SuperblockFirst(log: seq<Entry>, key: nat, id: int)
    requires id > 0 && GoodSplices(log)
    requires forall i :: 0 <= i < |log| && !IsFileName(log[i].tag.ty) ==> log[i].tag.id == 0
    requires forall i :: 0 < i < |log| && IsSplice(log[i].tag) ==> log[i].tag.id > 0
    ensures NamesOnly(log, key, id)
    decreases |log|
  {
    if log != [] {
      var n := |log| - 1;
      assert log[n] in log;
      hide Key, IsFileName;
      var r := LookAt(log[n], key, id);
      if r.Open? && n > 0 {
        SuperblockFirst(log[..n], key, r.id);
      }
    }
  }

  lemma {:induction false} WalkConcat(a: seq<Entry>, b: seq<Entry>, key: nat, id: int)
    ensures Walk(a + b, key, id) == (var r := Walk(b, key, id); if r.Open? then Walk(a, key, r.id) else r)
    decreases |b|
  {
    if b == [] {
      assert a + b == a;
    } else {
      var n := |b| - 1;
      assert (a + b)[..|a + b| - 1] == a + b[..n];
      var r := LookAt(b[n], key, id);
      if r.Open? {
        WalkConcat(a, b[..n], key, r.id);
      }
    }
  }

  // ----- forward meaning

  /** The attributes of each file, by id. */
  type Files = seq<map<nat, Slot>>

  function Blanks(n: nat): (s: Files)
    ensures |s| == n
  {
    seq(n, _ => map[])
  }

  /** An entry that makes sense when the files of the log so far are these. */
  predicate Fits(files: Files, e: Entry) {
    var t := e.tag;
    if t.ty == TYPE_CREATE then t.id <= |files|
    else if t.ty == TYPE_DELETE then t.id < |files|
    else if t.id == NO_ID then t.ty >= 0x400
    else Type1(t.ty) == TYPE_NAME || t.id < |files|
  }

  /** Replay of one entry: insert an id, delete an id, or set an attribute. A name makes its id exist. */
  function Replay1(files: Files, e: Entry): Files {
    var t := e.tag;
    if !Fits(files, e) then files
    else if t.ty == TYPE_CREATE then files[..t.id] + [map[]] + files[t.id..]
    else if t.ty == TYPE_DELETE then files[..t.id] + files[t.id + 1..]
    else if t.id == NO_ID then files
    else
      var files' := if t.id < |files| then files else files + Blanks(t.id + 1 - |files|);
      var attrs := files'[t.id];
      files'[t.id := if IsDeletion(t) then attrs - {Key(t.ty)} else attrs[Key(t.ty) := SlotOf(e)]]
  }

  function Replay(log: seq<Entry>): Files {
    if log == [] then [] else Replay1(Replay(log[..|log| - 1]), log[|log| - 1])
  }

  ghost predicate WellFormed(log: seq<Entry>) {
    && GoodSplices(log)
    && forall i :: 0 <= i < |log| ==> Fits(Replay(log[..i]), log[i])
  }

  lemma WellFormedPrefix(log: seq<Entry>, n: nat)
    requires WellFormed(log) && n <= |log|
    ensures WellFormed(log[..n])
  {
    forall i | 0 <= i < n ensures Fits(Replay(log[..n][..i]), log[..n][i]) {
      assert log[..n][..i] == log[..i];
    }
  }

  /** Attribute key of file id. */
  function Attribute(files: Files, key: nat, id: int): Option<Slot> {
    if 0 <= id < |files| && key in files[id] then Some(files[id][key]) else None
  }

  /** One entry: what replay makes of it is what the backward step says. */
  lemma ReplayLooks(files: Files, e: Entry, key: nat, id: nat)
    requires Fits(files, e) && IsFileKey(key)
    requires IsSplice(e.tag) ==> e.tag.ty == TYPE_CREATE || e.tag.ty == TYPE_DELETE
    ensures LooksRight(files, e, key, id)
  {
    hide Fits, IsFileKey, LooksRight;
    if e.tag.ty == TYPE_CREATE {
      CreateLooks(files, e, key, id);
    } else if e.tag.ty == TYPE_DELETE {
      DeleteLooks(files, e, key, id);
    } else {
      SetLooks(files, e, key, id);
    }
  }

  predicate LooksRight(files: Files, e: Entry, key: nat, id: nat) {
    var r := LookAt(e, key, id);
    && (r.Open? ==> r.id >= 0)
    && Attribute(Replay1(files, e), key, id)
       == match r
          case Hit(f) => Some(SlotOf(f))
          case Gone => None
          case Open(id') => Attribute(files, key, id')
  }

  lemma CreateLooks(files: Files, e: Entry, key: nat, id: nat)
    requires Fits(files, e) && IsFileKey(key) && e.tag.ty == TYPE_CREATE
    ensures LooksRight(files, e, key, id)
  {
  }

  lemma DeleteLooks(files: Files, e: Entry, key: nat, id: nat)
    requires Fits(files, e) && IsFileKey(key) && e.tag.ty == TYPE_DELETE
    ensures LooksRight(files, e, key, id)
  {
  }

  lemma SetLooks(files: Files, e: Entry, key: nat, id: nat)
    requires Fits(files, e) && IsFileKey(key) && !IsSplice(e.tag)
    ensures LooksRight(files, e, key, id)
  {
    hide Key, Type1, IsFileKey, Splice, IsDeletion;
    SetKinds(files, e, key);
  }

  lemma SetKinds(files: Files, e: Entry, key: nat)
    requires Fits(files, e) && IsFileKey(key) && !IsSplice(e.tag)
    ensures e.tag.ty != TYPE_CREATE && e.tag.ty != TYPE_DELETE && (e.tag.id == NO_ID ==> Key(e.tag.ty) != key)
  {
  }

  /** Backward search equals forward replay, for every key of every file. */
  lemma {:induction false} LookupIsReplay(log: seq<Entry>, key: nat, id: nat)
    requires WellFormed(log) && IsFileKey(key)
    ensures Lookup(log, key, id) == Attribute(Replay(log), key, id)
  {
    if log != [] {
      var n := |log| - 1;
      ReplayLooks(Replay(log[..n]), log[n], key, id);
      WellFormedPrefix(log, n);
      var r := LookAt(log[n], key, id);
      hide LookAt, Attribute, Replay1, Fits;
      if r.Open? {
        LookupIsReplay(log[..n], key, r.id);
      }
    }
  }

  // ----- logs of which all ids fit

  /** Names that make their id exist come before all deletions, as in a log that a compaction began. */
  ghost predicate NamesFirst(log: seq<Entry>) {
    forall j :: 0 <= j < |log| && Type1(log[j].tag.ty) == TYPE_NAME && log[j].tag.id >= |Replay(log[..j])| ==>
      NoDeletions(log[..j])
  }

  predicate NoDeletions(log: seq<Entry>) { forall e :: e in log ==> e.tag.ty != TYPE_DELETE }

  /** At no time are there more files than there are ids. */
  ghost predicate FewFiles(log: seq<Entry>) {
    forall i :: 0 <= i <= |log| ==> |Replay(log[..i])| <= NO_ID
  }

  lemma {:induction false} NoDeletionStays(log: seq<Entry>, key: nat, id: int)
    requires GoodSplices(log) && 0 <= id < NO_ID && NoDeletions(log)
    ensures Stays(log, key, id)
    decreases |log|
  {
    if log != [] {
      var n := |log| - 1;
      assert log[n] in log;
      var r := LookAt(log[n], key, id);
      if r.Open? {
        NoDeletionStays(log[..n], key, r.id);
      }
    }
  }

  /** One step back from a file leads to a file, or to a name that made it. */
  lemma StepStaysFile(files: Files, e: Entry, key: nat, id: nat)
    requires Fits(files, e) && id < |Replay1(files, e)|
    requires IsSplice(e.tag) ==> e.tag.ty == TYPE_CREATE || e.tag.ty == TYPE_DELETE
    ensures var r := LookAt(e, key, id);
      r.Open? ==> 0 <= r.id && (r.id < |files| || (r.id == id && Type1(e.tag.ty) == TYPE_NAME && e.tag.id >= |files|))
  {
  }

  /** The search for a file of a well-formed log never leaves the range of ids. */
  lemma {:induction false} FilesStay(log: seq<Entry>, key: nat, id: nat)
    requires WellFormed(log) && NamesFirst(log) && FewFiles(log) && id < |Replay(log)|
    ensures Stays(log, key, id)
    decreases |log|
  {
    FewNow(log);
    if log != [] {
      var n := |log| - 1;
      StepStaysFile(Replay(log[..n]), log[n], key, id);
      ShorterLog(log, n);
      var r := LookAt(log[n], key, id);
      hide LookAt, Replay, Replay1, Fits, WellFormed, FewFiles, GoodSplices;
      if r.Open? {
        if r.id < |Replay(log[..n])| {
          FilesStay(log[..n], key, r.id);
        } else {
          NothingDeleted(log, n);
          NoDeletionStays(log[..n], key, r.id);
        }
      }
    }
  }

  lemma FewNow(log: seq<Entry>)
    requires FewFiles(log)
    ensures |Replay(log)| <= NO_ID
  {
    hide Replay;
    assert log[..|log|] == log;
  }

  lemma ShorterLog(log: seq<Entry>, n: nat)
    requires WellFormed(log) && NamesFirst(log) && FewFiles(log) && n < |log|
    ensures WellFormed(log[..n]) && NamesFirst(log[..n]) && FewFiles(log[..n])
  {
    hide *;
    WellFormedPrefix(log, n);
    FewBefore(log, n);
    NamesBefore(log, n);
  }

  lemma FewBefore(log: seq<Entry>, n: nat)
    requires FewFiles(log) && n < |log|
    ensures FewFiles(log[..n])
  {
    hide Replay;
    forall i | 0 <= i <= n ensures |Replay(log[..n][..i])| <= NO_ID {
      assert log[..n][..i] == log[..i];
    }
  }

  lemma NamesBefore(log: seq<Entry>, n: nat)
    requires NamesFirst(log) && n < |log|
    ensures NamesFirst(log[..n])
  {
    hide Replay, NoDeletions, Type1;
    forall j | 0 <= j < n && Type1(log[..n][j].tag.ty) == TYPE_NAME && log[..n][j].tag.id >= |Replay(log[..n][..j])|
      ensures NoDeletions(log[..n][..j])
    {
      assert log[..n][..j] == log[..j];
    }
  }

  /** Before a name that made its file, nothing was deleted. */
  lemma NothingDeleted(log: seq<Entry>, n: nat)
    requires NamesFirst(log) && n < |log| && Type1(log[n].tag.ty) == TYPE_NAME && log[n].tag.id >= |Replay(log[..n])|
    ensures NoDeletions(log[..n])
  {
    hide Replay, NoDeletions;
  }

  // ----- entries that belong to no file

  predicate Neutral(e: Entry) { e.tag.ty >= 0x500 }

  lemma NeutralStep(e: Entry, key: nat, id: int)
    requires Neutral(e) && IsFileKey(key)
    ensures LookAt(e, key, id) == Open(id)
  {
  }

  /** The count that lfs_dir_fetchmatch keeps while it scans the tags. */
  function Count1(count: nat, t: Tag): int {
    if Type1(t.ty) == TYPE_NAME then (if t.id >= count then t.id + 1 else count)
    else if IsSplice(t) then count + Splice(t.ty)
    else count
  }

  /** The count is the number of files. */
  lemma CountIsFiles(files: Files, e: Entry)
    requires Fits(files, e)
    requires IsSplice(e.tag) ==> e.tag.ty == TYPE_CREATE || e.tag.ty == TYPE_DELETE
    ensures |Replay1(files, e)| == Count1(|files|, e.tag)
  {
  }
}
