/**
 * Directory and inode operations: the mode dispatch of `assoofs_get_inode`,
 * `assoofs_iterate`, `assoofs_lookup`, `assoofs_create` and `assoofs_mkdir`.
 * A directory's data block is an array of directory records of which the
 * first `dir_children_count` are its entries.
 */
module DirOps {
  import opened Wrappers
  import opened AssoofsLayout
  import opened InodeStore

  // ---------------------------------------------------------------------------
  // Mode dispatch
  // ---------------------------------------------------------------------------

  /** The file operations a kernel inode is given. */
  datatype FileOpsKind = DirectoryOps | RegularFileOps

  /** The kernel inode `assoofs_get_inode` builds: number, operations, private record. */
  datatype VfsInode = VfsInode(ino: nat, ops: FileOpsKind, info: InodeInfo)

  lemma DirIsNotReg(mode: bv32)
    ensures !(IsDir(mode) && IsReg(mode))
  {
  }

  /**
   * `assoofs_get_inode`: nothing when the number has no record or the
   * record is neither a directory nor a regular file; otherwise directory
   * operations for a directory and file operations for a regular file.
   */
  function GetInode(img: Image, ino: nat): (r: Option<VfsInode>)
    ensures r.Some? <==> GetInodeInfo(img, ino).Some? && (IsDir(GetInodeInfo(img, ino).value.mode) || IsReg(GetInodeInfo(img, ino).value.mode))
    ensures r.Some? ==> r.value.ino == ino && Some(r.value.info) == GetInodeInfo(img, ino)
    ensures r.Some? ==> (r.value.ops == DirectoryOps <==> IsDir(r.value.info.mode))
    ensures r.Some? ==> (r.value.ops == RegularFileOps <==> IsReg(r.value.info.mode))
  {
    match GetInodeInfo(img, ino)
    case None => None
    case Some(info) =>
      DirIsNotReg(info.mode);
      if IsDir(info.mode) then Some(VfsInode(ino, DirectoryOps, info))
      else if IsReg(info.mode) then Some(VfsInode(ino, RegularFileOps, info))
      else None
  }

  // ---------------------------------------------------------------------------
  // Iterate
  // ---------------------------------------------------------------------------

  /** The first n slots of a directory block, in order. */
  function FirstEntries(records: seq<DirRecord>, n: nat): (r: seq<DirRecord>)
    ensures |r| == n
    ensures forall i :: 0 <= i < n ==> r[i] == RecordAt(records, i)
  {
    if n == 0 then [] else FirstEntries(records, n - 1) + [RecordAt(records, n - 1)]
  }

  /** What `assoofs_iterate` reports: its return value, the records emitted, the new position. */
  datatype IterateResult = IterateResult(ret: int, emitted: seq<DirRecord>, pos: nat)

  /**
   * `assoofs_iterate`: emits nothing once the position is non-zero, fails
   * on a non-directory, and otherwise emits the directory's records in
   * order, advancing the position by one record size for each.
   */
  function Iterate(img: Image, info: InodeInfo, pos: nat): (r: IterateResult)
    ensures pos != 0 ==> r == IterateResult(0, [], pos)
    ensures pos == 0 && !IsDir(info.mode) ==> r == IterateResult(-1, [], pos)
    ensures pos == 0 && IsDir(info.mode) ==>
              && r.ret == 0
              && |r.emitted| == Raw(info.payload)
              && r.pos == |r.emitted| * DirRecordSize
              && forall i :: 0 <= i < |r.emitted| ==> r.emitted[i] == RecordAt(RecordsOf(img, info.dataBlock), i)
  {
    if pos != 0 then IterateResult(0, [], pos)
    else if !IsDir(info.mode) then IterateResult(-1, [], pos)
    else
      var n := Raw(info.payload);
      IterateResult(0, FirstEntries(RecordsOf(img, info.dataBlock), n), pos + n * DirRecordSize)
  }

  // ---------------------------------------------------------------------------
  // Lookup
  // ---------------------------------------------------------------------------

  /** The first of the first n slots whose name is `name`. */
  function FindName(records: seq<DirRecord>, n: nat, name: string): (r: Option<nat>)
    ensures r.Some? ==> r.value < n && RecordAt(records, r.value).filename == name
    ensures r.Some? ==> forall j :: 0 <= j < r.value ==> RecordAt(records, j).filename != name
    ensures r.None? ==> forall j :: 0 <= j < n ==> RecordAt(records, j).filename != name
  {
    if n == 0 then None
    else match FindName(records, n - 1, name)
      case Some(i) => Some(i)
      case None => if RecordAt(records, n - 1).filename == name then Some(n - 1) else None
  }

  /** How `assoofs_lookup` ends: no entry, an entry whose inode could not be built, or a bound dentry. */
  datatype LookupOutcome = NoEntry | Unresolved(ino: nat) | Bound(inode: VfsInode)

  /**
   * `assoofs_lookup`: the first of the parent's entries whose name equals
   * `name`; its inode is built by `GetInode` and bound to the dentry.
   */
  function Lookup(img: Image, parent: InodeInfo, name: string): (r: LookupOutcome)
    ensures var records := RecordsOf(img, parent.dataBlock);
            r.NoEntry? <==> forall j :: 0 <= j < Raw(parent.payload) ==> RecordAt(records, j).filename != name
    ensures !r.NoEntry? ==> exists i :: 0 <= i < Raw(parent.payload)
                              && RecordAt(RecordsOf(img, parent.dataBlock), i).filename == name
                              && (forall j :: 0 <= j < i ==> RecordAt(RecordsOf(img, parent.dataBlock), j).filename != name)
                              && (r.Unresolved? <==> GetInode(img, RecordAt(RecordsOf(img, parent.dataBlock), i).inodeNo).None?)
                              && (r.Bound? ==> Some(r.inode) == GetInode(img, RecordAt(RecordsOf(img, parent.dataBlock), i).inodeNo))
  {
    var records := RecordsOf(img, parent.dataBlock);
    match FindName(records, Raw(parent.payload), name)
    case None => NoEntry
    case Some(i) =>
      var ino := RecordAt(records, i).inodeNo;
      match GetInode(img, ino)
      case None => Unresolved(ino)
      case Some(inode) => Bound(inode)
  }

  /** Lookup finds a name exactly when iterating the directory emits a record with it. */
  lemma LookupAgreesWithIterate(img: Image, parent: InodeInfo, name: string)
    requires IsDir(parent.mode)
    ensures var emitted := Iterate(img, parent, 0).emitted;
            !Lookup(img, parent, name).NoEntry? <==> exists i :: 0 <= i < |emitted| && emitted[i].filename == name
  {
    var emitted := Iterate(img, parent, 0).emitted;
    var records := RecordsOf(img, parent.dataBlock);
    if !Lookup(img, parent, name).NoEntry? {
      var i :| 0 <= i < Raw(parent.payload) && RecordAt(records, i).filename == name;
      assert emitted[i].filename == name;
    }
  }

  // ---------------------------------------------------------------------------
  // Create and mkdir
  // ---------------------------------------------------------------------------

  /** What create and mkdir leave behind: status, device, the parent's in-memory record. */
  datatype CreateResult = CreateResult(ret: int, img: Image, parent: InodeInfo)

  /**
   * The steps `assoofs_create` and `assoofs_mkdir` share: refuse once
   * `inodes_count` reaches `MaxObjects - 2`; take a free block; append the
   * new record numbered `inodes_count + 1`; write the entry (name, number)
   * into the parent's slot `dir_children_count`; increment the parent's
   * count in memory and save the parent's record.
   */
  function AddChild(img: Image, parent: InodeInfo, name: string, mode: bv32, payload: Payload): (r: CreateResult)
    ensures r.ret == 0 || r.ret == -1
    ensures img.sb.inodesCount >= MaxObjects - 2 ==> r == CreateResult(-1, img, parent)
    ensures GetFreeBlock(img.sb).ret == -1 ==> r == CreateResult(-1, img, parent)
    ensures r.ret == 0 ==> NewChild(img, r, parent, name, mode, payload)
    ensures r.ret == -1 ==> CannotAdd(img, parent)
    ensures r.ret == -1 && !ParentMissing(img, parent) ==> r == CreateResult(-1, img, parent)
    ensures (r.ret == -1 && img.sb.inodesCount < MaxObjects - 2 && GetFreeBlock(img.sb).ret == 0)
            ==> SaveFailed(img, r, parent, name, mode, payload)
  {
    var count := img.sb.inodesCount;
    if count >= MaxObjects - 2 then CreateResult(-1, img, parent)
    else
      var alloc := GetFreeBlock(img.sb);
      if alloc.ret != 0 then CreateResult(-1, img, parent)
      else
        var info := InodeInfo(mode, count + 1, alloc.block, payload);
        var added := AddInodeInfo(img.(sb := alloc.sb), info);
        var slot := Raw(parent.payload);
        var entries := WriteSlot(RecordsOf(added, parent.dataBlock), slot, DirRecord(name, count + 1), EmptyRecord);
        var linked := added.(blocks := added.blocks[parent.dataBlock := Entries(entries)]);
        var newParent := parent.(payload := ChildrenCount(slot + 1));
        var saved := SaveInodeInfo(linked, newParent);
        assert forall j: nat :: StoreSlot(linked, j) == StoreSlot(added, j);
        assert forall j: nat :: j != count ==> StoreSlot(linked, j) == StoreSlot(img, j);
        assert StoreSlot(linked, count) == info;
        if saved.ret == 0 then
          SavedChild(img, parent, name, mode, payload, linked, saved);
          CreateResult(0, saved.img, newParent)
        else
          UnsavedChild(img, parent, name, mode, payload, linked, saved);
          CreateResult(-1, saved.img, newParent)
  }

  /** Saving the parent after the new record and entry were written is `NewChild`. */
  lemma SavedChild(img: Image, parent: InodeInfo, name: string, mode: bv32, payload: Payload, linked: Image, saved: Saved)
    requires img.sb.inodesCount < MaxObjects - 2 && GetFreeBlock(img.sb).ret == 0
    requires linked.sb == GetFreeBlock(img.sb).sb.(inodesCount := img.sb.inodesCount + 1)
    requires StoreSlot(linked, img.sb.inodesCount) == InodeInfo(mode, img.sb.inodesCount + 1, GetFreeBlock(img.sb).block, payload)
    requires forall j: nat :: j != img.sb.inodesCount ==> StoreSlot(linked, j) == StoreSlot(img, j)
    requires |img.store| == img.sb.inodesCount ==> |linked.store| == img.sb.inodesCount + 1
    requires RecordsOf(linked, parent.dataBlock)
               == WriteSlot(RecordsOf(img, parent.dataBlock), Raw(parent.payload), DirRecord(name, img.sb.inodesCount + 1), EmptyRecord)
    requires linked.blocks == img.blocks[parent.dataBlock := Entries(RecordsOf(linked, parent.dataBlock))]
    requires saved == SaveInodeInfo(linked, parent.(payload := ChildrenCount(Raw(parent.payload) + 1))) && saved.ret == 0
    ensures NewChild(img, CreateResult(0, saved.img, parent.(payload := ChildrenCount(Raw(parent.payload) + 1))), parent, name, mode, payload)
  {
    var count := img.sb.inodesCount;
    var newParent := parent.(payload := ChildrenCount(Raw(parent.payload) + 1));
    var k :| 0 <= k < count + 1 && StoreSlot(linked, k).inodeNo == newParent.inodeNo
              && (forall j :: 0 <= j < k ==> StoreSlot(linked, j).inodeNo != newParent.inodeNo)
              && StoreSlot(saved.img, k) == newParent
              && forall j: nat :: j != k ==> StoreSlot(saved.img, j) == StoreSlot(linked, j);
    assert k < count ==> StoreSlot(img, k).inodeNo == parent.inodeNo
                         && StoreSlot(saved.img, count) == StoreSlot(linked, count);
    assert k == count ==> parent.inodeNo == count + 1;
    assert forall j: nat :: j != k && j != count ==> StoreSlot(saved.img, j) == StoreSlot(img, j);
    assert RecordsOf(saved.img, parent.dataBlock) == RecordsOf(linked, parent.dataBlock);
  }

  /** A failed save of the parent after the link step leaves the linked image: `SaveFailed`. */
  lemma UnsavedChild(img: Image, parent: InodeInfo, name: string, mode: bv32, payload: Payload, linked: Image, saved: Saved)
    requires img.sb.inodesCount < MaxObjects - 2 && GetFreeBlock(img.sb).ret == 0
    requires linked.sb == GetFreeBlock(img.sb).sb.(inodesCount := img.sb.inodesCount + 1)
    requires StoreSlot(linked, img.sb.inodesCount) == InodeInfo(mode, img.sb.inodesCount + 1, GetFreeBlock(img.sb).block, payload)
    requires forall j: nat :: j != img.sb.inodesCount ==> StoreSlot(linked, j) == StoreSlot(img, j)
    requires |img.store| == img.sb.inodesCount ==> |linked.store| == img.sb.inodesCount + 1
    requires RecordsOf(linked, parent.dataBlock)
               == WriteSlot(RecordsOf(img, parent.dataBlock), Raw(parent.payload), DirRecord(name, img.sb.inodesCount + 1), EmptyRecord)
    requires linked.blocks == img.blocks[parent.dataBlock := Entries(RecordsOf(linked, parent.dataBlock))]
    requires saved == SaveInodeInfo(linked, parent.(payload := ChildrenCount(Raw(parent.payload) + 1))) && saved.ret == -1
    ensures SaveFailed(img, CreateResult(-1, saved.img, parent.(payload := ChildrenCount(Raw(parent.payload) + 1))), parent, name, mode, payload)
  {
    var count := img.sb.inodesCount;
    assert StoreSlot(linked, count).inodeNo != parent.inodeNo;
    forall j | 0 <= j < count ensures StoreSlot(img, j).inodeNo != parent.inodeNo {
      assert StoreSlot(linked, j) == StoreSlot(img, j);
    }
  }

  /**
   * What a successful create or mkdir did: one new record numbered
   * `inodes_count + 1` in slot `inodes_count`, on the lowest free block in
   * [2, 62), whose flag is now clear; the parent gained the entry
   * (name, number) at index `dir_children_count`, its count went up by one
   * and its saved record now says so; no other record, entry or block
   * changed.
   */
  ghost predicate NewChild(img: Image, r: CreateResult, parent: InodeInfo, name: string, mode: bv32, payload: Payload) {
    var count := img.sb.inodesCount;
    var alloc := GetFreeBlock(img.sb);
    && Linked(img, r, parent, name)
    && (exists k :: 0 <= k < count + 1 && StoreSlot(r.img, k) == r.parent
          && (forall j :: 0 <= j < k ==> StoreSlot(img, j).inodeNo != parent.inodeNo)
          && (k < count ==> StoreSlot(img, k).inodeNo == parent.inodeNo
                            && StoreSlot(r.img, count) == InodeInfo(mode, count + 1, alloc.block, payload))
          && (k == count ==> parent.inodeNo == count + 1)
          && forall j: nat :: j != k && j != count ==> StoreSlot(r.img, j) == StoreSlot(img, j))
  }

  /**
   * What create and mkdir leave behind when the parent's record cannot be
   * saved: the block is taken, the new record is stored, the entry is
   * written and the parent's count raised, exactly as on success, but no
   * stored record is the parent's and no other slot changed.
   */
  ghost predicate SaveFailed(img: Image, r: CreateResult, parent: InodeInfo, name: string, mode: bv32, payload: Payload) {
    var count := img.sb.inodesCount;
    && Linked(img, r, parent, name)
    && ParentMissing(img, parent)
    && StoreSlot(r.img, count) == InodeInfo(mode, count + 1, GetFreeBlock(img.sb).block, payload)
    && forall j: nat :: j != count ==> StoreSlot(r.img, j) == StoreSlot(img, j)
  }

  /**
   * The part of create and mkdir done before the parent's record is
   * saved: the lowest free block in [2, 62) is taken and its flag cleared,
   * `inodes_count` went up by one, the parent gained the entry
   * (name, `inodes_count + 1`) at index `dir_children_count` and its
   * in-memory count went up by one; no other block changed.
   */
  ghost predicate Linked(img: Image, r: CreateResult, parent: InodeInfo, name: string) {
    var count := img.sb.inodesCount;
    var alloc := GetFreeBlock(img.sb);
    && count < MaxObjects - 2
    && alloc.ret == 0
    && r.img.sb == alloc.sb.(inodesCount := count + 1)
    && (|img.store| == count ==> |r.img.store| == count + 1)
    && r.parent == parent.(payload := ChildrenCount(Raw(parent.payload) + 1))
    && RecordsOf(r.img, parent.dataBlock) == WriteSlot(RecordsOf(img, parent.dataBlock), Raw(parent.payload), DirRecord(name, count + 1), EmptyRecord)
    && r.img.blocks == img.blocks[parent.dataBlock := Entries(RecordsOf(r.img, parent.dataBlock))]
  }

  /**
   * The three ways create and mkdir fail: the object limit is reached, no
   * block in [2, 62) is free, or the parent's record is not in the store
   * (the last one only after the new record and entry were written).
   */
  ghost predicate CannotAdd(img: Image, parent: InodeInfo) {
    || img.sb.inodesCount >= MaxObjects - 2
    || GetFreeBlock(img.sb).ret == -1
    || ParentMissing(img, parent)
  }

  /** The parent's number is neither among the stored records nor the one the new record takes. */
  ghost predicate ParentMissing(img: Image, parent: InodeInfo) {
    && parent.inodeNo != img.sb.inodesCount + 1
    && forall j :: 0 <= j < img.sb.inodesCount ==> StoreSlot(img, j).inodeNo != parent.inodeNo
  }

  /** `assoofs_create`: a regular file of size 0 with the given mode. */
  function Create(img: Image, parent: InodeInfo, name: string, mode: bv32): (r: CreateResult)
    ensures r.ret == 0 || r.ret == -1
    ensures img.sb.inodesCount >= MaxObjects - 2 ==> r == CreateResult(-1, img, parent)
    ensures r.ret == 0 ==> NewChild(img, r, parent, name, mode, FileSize(0))
    ensures r.ret == -1 ==> CannotAdd(img, parent)
    ensures r.ret == -1 && !ParentMissing(img, parent) ==> r == CreateResult(-1, img, parent)
    ensures (r.ret == -1 && img.sb.inodesCount < MaxObjects - 2 && GetFreeBlock(img.sb).ret == 0)
            ==> SaveFailed(img, r, parent, name, mode, FileSize(0))
  {
    AddChild(img, parent, name, mode, FileSize(0))
  }

  /** `assoofs_mkdir`: a directory with mode `S_IFDIR | mode` and no children. */
  function Mkdir(img: Image, parent: InodeInfo, name: string, mode: bv32): (r: CreateResult)
    ensures r.ret == 0 || r.ret == -1
    ensures img.sb.inodesCount >= MaxObjects - 2 ==> r == CreateResult(-1, img, parent)
    ensures r.ret == 0 ==> NewChild(img, r, parent, name, S_IFDIR | mode, ChildrenCount(0))
    ensures r.ret == -1 ==> CannotAdd(img, parent)
    ensures r.ret == -1 && !ParentMissing(img, parent) ==> r == CreateResult(-1, img, parent)
    ensures (r.ret == -1 && img.sb.inodesCount < MaxObjects - 2 && GetFreeBlock(img.sb).ret == 0)
            ==> SaveFailed(img, r, parent, name, S_IFDIR | mode, ChildrenCount(0))
  {
    AddChild(img, parent, name, S_IFDIR | mode, ChildrenCount(0))
  }

  /**
   * Create with the capacity check the directory block needs: a parent
   * whose block already holds `RecordsPerBlock` entries is refused before
   * anything else happens.
   */
  function CreateBounded(img: Image, parent: InodeInfo, name: string, mode: bv32): (r: CreateResult)
    ensures Raw(parent.payload) >= RecordsPerBlock ==> r == CreateResult(-1, img, parent)
    ensures Raw(parent.payload) < RecordsPerBlock ==> r == Create(img, parent, name, mode)
    ensures r.ret == 0 ==> (Raw(parent.payload) + 1) * DirRecordSize <= BlockSize
  {
    if Raw(parent.payload) >= RecordsPerBlock then CreateResult(-1, img, parent)
    else Create(img, parent, name, mode)
  }

  /** Mkdir with the same capacity check. */
  function MkdirBounded(img: Image, parent: InodeInfo, name: string, mode: bv32): (r: CreateResult)
    ensures Raw(parent.payload) >= RecordsPerBlock ==> r == CreateResult(-1, img, parent)
    ensures Raw(parent.payload) < RecordsPerBlock ==> r == Mkdir(img, parent, name, mode)
    ensures r.ret == 0 ==> (Raw(parent.payload) + 1) * DirRecordSize <= BlockSize
  {
    if Raw(parent.payload) >= RecordsPerBlock then CreateResult(-1, img, parent)
    else Mkdir(img, parent, name, mode)
  }
}
