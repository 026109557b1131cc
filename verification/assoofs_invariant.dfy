/**
 * What a consistent assoofs device looks like, and which operations keep
 * it so. `WellFormed` holds of the image `mkassoofs` writes; write, and
 * create and mkdir with a directory-capacity check, preserve it; on a
 * well-formed image mounting succeeds, every record resolves to a kernel
 * inode, every directory entry names an existing record, and the search
 * as written agrees with the in-range search for every real inode number.
 */
module Invariant {
  import opened Wrappers
  import opened AssoofsLayout
  import opened InodeStore
  import opened FileOps
  import opened DirOps
  import opened Mount
  import opened Mkassoofs

  /** The superblock's fixed fields, a full bitmap, and a record count within the object limit. */
  predicate SuperOk(sb: SuperBlockInfo) {
    && sb.magic == Magic && sb.blockSize == BlockSize
    && |sb.freeBlocks| == MaxObjects
    && 1 <= sb.inodesCount <= MaxObjects - 2
  }

  /** The store holds exactly `inodes_count` records, slot k holding record k + 1. */
  predicate Numbered(img: Image) {
    && |img.store| == img.sb.inodesCount
    && forall k :: 0 <= k < img.sb.inodesCount ==> StoreSlot(img, k).inodeNo == k + 1
  }

  /**
   * A directory whose union holds a child count that fits in its block, or
   * a regular file whose union holds a size that fits in its block.
   */
  predicate Typed(mode: bv32, payload: Payload) {
    || (IsDir(mode) && payload.ChildrenCount? && payload.count <= RecordsPerBlock)
    || (IsReg(mode) && payload.FileSize? && payload.size <= BlockSize)
  }

  predicate AllTyped(img: Image) {
    forall k :: 0 <= k < img.sb.inodesCount ==> Typed(StoreSlot(img, k).mode, StoreSlot(img, k).payload)
  }

  /** A block the allocator may hand out and whose flag says it is taken. */
  predicate InUse(sb: SuperBlockInfo, b: nat) {
    2 <= b < MaxObjects - 2 && !Bit(sb.freeBlocks, b)
  }

  /**
   * Every record owns a distinct block marked in use, and every block with
   * content is marked in use (so a freshly allocated block is blank).
   */
  predicate OwnBlocks(img: Image) {
    && (forall k :: 0 <= k < img.sb.inodesCount ==> InUse(img.sb, StoreSlot(img, k).dataBlock))
    && (forall k1, k2 :: 0 <= k1 < k2 < img.sb.inodesCount ==> StoreSlot(img, k1).dataBlock != StoreSlot(img, k2).dataBlock)
    && (forall b :: b in img.blocks ==> !Bit(img.sb.freeBlocks, b))
  }

  /** Each of a directory's entries names one of the records in the store. */
  predicate EntriesResolve(img: Image) {
    forall k, i :: 0 <= k < img.sb.inodesCount && IsDir(StoreSlot(img, k).mode) && 0 <= i < Raw(StoreSlot(img, k).payload) ==>
      1 <= RecordAt(RecordsOf(img, StoreSlot(img, k).dataBlock), i).inodeNo <= img.sb.inodesCount
  }

  /** Record 1 is the root directory, on block 2. */
  predicate RootOk(img: Image) {
    IsDir(StoreSlot(img, 0).mode) && StoreSlot(img, 0).dataBlock == RootDirBlockNumber
  }

  predicate WellFormed(img: Image) {
    SuperOk(img.sb) && Numbered(img) && AllTyped(img) && OwnBlocks(img) && EntriesResolve(img) && RootOk(img)
  }

  /** The in-memory record agrees with the record the store holds under its number. */
  predicate Coherent(img: Image, info: InodeInfo) {
    GetInodeInfo(img, info.inodeNo) == Some(info)
  }

  // ---------------------------------------------------------------------------
  // Reading a well-formed image
  // ---------------------------------------------------------------------------

  /** In a well-formed image record k + 1 is found in slot k. */
  lemma SlotFound(img: Image, k: nat)
    requires WellFormed(img) && k < img.sb.inodesCount
    ensures GetInodeInfo(img, k + 1) == Some(StoreSlot(img, k))
  {
    var r := GetInodeInfo(img, k + 1);
    assert StoreSlot(img, k).inodeNo == k + 1;
    var k' :| 0 <= k' < img.sb.inodesCount && StoreSlot(img, k') == r.value
              && forall j :: 0 <= j < k' ==> StoreSlot(img, j).inodeNo != k + 1;
    assert k' == k;
  }

  /** A coherent record is the one in the slot below its number. */
  lemma CoherentSlot(img: Image, info: InodeInfo)
    requires WellFormed(img) && Coherent(img, info)
    ensures 1 <= info.inodeNo <= img.sb.inodesCount
    ensures StoreSlot(img, info.inodeNo - 1) == info
  {
    var k :| 0 <= k < img.sb.inodesCount && StoreSlot(img, k) == info;
  }

  /** Mounting a well-formed image succeeds and finds the root directory. */
  lemma WellFormedMounts(img: Image)
    requires WellFormed(img)
    ensures FillSuper(img).Success?
    ensures FillSuper(img).value.rootInfo == Some(StoreSlot(img, 0))
    ensures IsDir(FillSuper(img).value.rootInfo.value.mode)
  {
    SlotFound(img, 0);
  }

  /** Every record of a well-formed image becomes a kernel inode with the operations its type calls for. */
  lemma EveryRecordResolves(img: Image, k: nat)
    requires WellFormed(img) && k < img.sb.inodesCount
    ensures GetInode(img, k + 1).Some?
    ensures GetInode(img, k + 1).value.info == StoreSlot(img, k)
  {
    SlotFound(img, k);
  }

  /** Looking up a name in a directory of a well-formed image never meets a dangling entry. */
  lemma LookupNeverDangles(img: Image, parent: InodeInfo, name: string)
    requires WellFormed(img) && Coherent(img, parent) && IsDir(parent.mode)
    ensures !Lookup(img, parent, name).Unresolved?
  {
    CoherentSlot(img, parent);
    var r := Lookup(img, parent, name);
    if r.Unresolved? {
      var records := RecordsOf(img, parent.dataBlock);
      var i :| 0 <= i < Raw(parent.payload) && RecordAt(records, i).filename == name
               && (r.Unresolved? <==> GetInode(img, RecordAt(records, i).inodeNo).None?);
      var k := parent.inodeNo - 1;
      assert 1 <= RecordAt(RecordsOf(img, StoreSlot(img, k).dataBlock), i).inodeNo <= img.sb.inodesCount;
      EveryRecordResolves(img, RecordAt(records, i).inodeNo - 1);
    }
  }

  /** On a well-formed image the search as written finds what the in-range search finds, for every real number. */
  lemma SearchAsWrittenHarmless(img: Image, ino: nat)
    requires WellFormed(img) && ino != 0
    ensures SearchAsWritten(img, ino, 0) == Search(img, ino)
  {
    SearchAgreesInRange(img, ino);
  }

  /**
   * The reserved blocks stay reserved: the allocator never hands out a block
   * at or below the root directory's, and record 1 is the root directory on
   * block 2.
   */
  lemma ReservedBlocksStayReserved(img: Image)
    requires WellFormed(img)
    ensures GetFreeBlock(img.sb).ret == 0 ==> GetFreeBlock(img.sb).block > LastReservedBlock
    ensures GetInodeInfo(img, RootDirInodeNumber).Some?
    ensures GetInodeInfo(img, RootDirInodeNumber).value.dataBlock == RootDirBlockNumber
    ensures IsDir(GetInodeInfo(img, RootDirInodeNumber).value.mode)
  {
    SlotFound(img, 0);
    assert InUse(img.sb, StoreSlot(img, 0).dataBlock);
  }

  /**
   * The search as written reads the slot past the last record: on the
   * formatted device a search for inode 0 matches the empty slot 2, which
   * the in-range search rejects.
   */
  lemma SearchReadsPastLastRecord()
    ensures SearchAsWritten(Formatted(), 0, 0) == Some(2)
    ensures Search(Formatted(), 0) == None
  {
    assert StoreSlot(Formatted(), 0) == RootInode;
    assert StoreSlot(Formatted(), 1) == WelcomeInode;
    assert StoreSlot(Formatted(), 2) == ZeroInode;
  }

  // ---------------------------------------------------------------------------
  // The formatted image
  // ---------------------------------------------------------------------------

  /** The image `mkassoofs` writes is well formed. */
  lemma FormattedWellFormed()
    ensures WellFormed(Formatted())
  {
    var img := Formatted();
    assert SuperOk(img.sb);
    FormattedStore(img);
    FormattedBlocks(img);
    FormattedEntries(img);
  }

  lemma FormattedStore(img: Image)
    requires img.sb == FormattedSuperBlock && img.store == [RootInode, WelcomeInode]
    ensures Numbered(img) && AllTyped(img) && RootOk(img)
  {
    assert StoreSlot(img, 0) == RootInode;
    assert StoreSlot(img, 1) == WelcomeInode;
    FormattedInodes();
  }

  lemma FormattedBlocks(img: Image)
    requires img.sb == FormattedSuperBlock && img.store == [RootInode, WelcomeInode]
    requires img.blocks.Keys == {RootDirBlockNumber, WelcomeFileDataBlockNumber}
    ensures OwnBlocks(img)
  {
    var flags := img.sb.freeBlocks;
    assert flags == seq(MaxObjects, i => i >= 4);
    assert !flags[2] && !flags[3];
    assert StoreSlot(img, 0) == RootInode;
    assert StoreSlot(img, 1) == WelcomeInode;
    forall b | b in img.blocks ensures !Bit(flags, b) {
      assert b == 2 || b == 3;
    }
  }

  lemma FormattedEntries(img: Image)
    requires img.sb == FormattedSuperBlock && img.store == [RootInode, WelcomeInode]
    requires RecordsOf(img, RootDirBlockNumber) == [WelcomeRecord]
    ensures EntriesResolve(img)
  {
    assert StoreSlot(img, 0) == RootInode;
    assert StoreSlot(img, 1) == WelcomeInode;
    FormattedInodes();
  }

  // ---------------------------------------------------------------------------
  // Preservation
  // ---------------------------------------------------------------------------

  /**
   * Adding a child to a coherent directory with room for one more entry
   * keeps the image well formed; on success the parent's in-memory record
   * is again the one the store holds, and on failure nothing changed.
   */
  lemma AddChildPreserves(img: Image, parent: InodeInfo, name: string, mode: bv32, payload: Payload, dir: bool)
    requires WellFormed(img) && Coherent(img, parent) && IsDir(parent.mode)
    requires Raw(parent.payload) < RecordsPerBlock
    requires FreshRecord(mode, payload, dir)
    ensures var r := AddChild(img, parent, name, mode, payload);
            && WellFormed(r.img)
            && (r.ret == 0 ==> Coherent(r.img, r.parent) && r.img.sb.inodesCount == img.sb.inodesCount + 1
                               && GetInodeInfo(r.img, img.sb.inodesCount + 1)
                                    == Some(InodeInfo(mode, img.sb.inodesCount + 1, GetFreeBlock(img.sb).block, payload)))
            && (r.ret == -1 ==> r == CreateResult(-1, img, parent))
  {
    // Facts about the old image are established before the term
    // AddChild(...) appears, which keeps the solver's search small.
    CoherentSlot(img, parent);
    var k := parent.inodeNo - 1;
    var alloc := GetFreeBlock(img.sb);
    var info := InodeInfo(mode, img.sb.inodesCount + 1, alloc.block, payload);
    assert FreshRecord(info.mode, info.payload, dir);
    AddChildOutcome(img, parent, name, mode, payload, k);
    var r := AddChild(img, parent, name, mode, payload);
    if r.ret == 0 {
      AddChildSuccess(img, r, parent, name, k, info, alloc, dir);
    }
  }

  /** The record create (`dir` false) or mkdir (`dir` true) makes: a regular file of size 0 or an empty directory. */
  predicate FreshRecord(mode: bv32, payload: Payload, dir: bool) {
    if dir then IsDir(mode) && payload == ChildrenCount(0) else IsReg(mode) && payload == FileSize(0)
  }

  /** Adding a child under the parent in slot k either is `ChildAdded` or changes nothing. */
  lemma AddChildOutcome(img: Image, parent: InodeInfo, name: string, mode: bv32, payload: Payload, k: nat)
    requires Numbered(img) && k < img.sb.inodesCount && StoreSlot(img, k) == parent
    ensures var r := AddChild(img, parent, name, mode, payload);
            && (r.ret == 0 ==> ChildAdded(img, r, parent, name, k,
                                 InodeInfo(mode, img.sb.inodesCount + 1, GetFreeBlock(img.sb).block, payload), GetFreeBlock(img.sb)))
            && (r.ret != 0 ==> r == CreateResult(-1, img, parent))
  {
    var r := AddChild(img, parent, name, mode, payload);
    if r.ret == 0 {
      NewChildSlots(img, r, parent, name, mode, payload, k);
    } else {
      assert StoreSlot(img, k).inodeNo == parent.inodeNo;
      assert !ParentMissing(img, parent);
    }
  }

  /** The success half of `AddChildPreserves`. */
  lemma AddChildSuccess(img: Image, r: CreateResult, parent: InodeInfo, name: string, k: nat, info: InodeInfo, alloc: Allocation, dir: bool)
    requires WellFormed(img) && IsDir(parent.mode) && Raw(parent.payload) < RecordsPerBlock
    requires FreshRecord(info.mode, info.payload, dir)
    requires ChildAdded(img, r, parent, name, k, info, alloc)
    ensures WellFormed(r.img) && Coherent(r.img, r.parent)
    ensures GetInodeInfo(r.img, img.sb.inodesCount + 1) == Some(info)
  {
    AddChildKeepsBlocks(img, r, parent, name, k, info, alloc);
    AddChildKeepsStore(img, r, parent, name, k, info, alloc, dir);
    AddChildKeepsEntries(img, r, parent, name, k, info, alloc);
    SlotFound(r.img, k);
    SlotFound(r.img, img.sb.inodesCount);
  }

  /**
   * A successful add, spelt out for a parent in slot k: the new record
   * `info` in slot `inodes_count` on the allocated block, the parent with
   * one more child in slot k, the entry written, and nothing else changed.
   */
  ghost predicate ChildAdded(img: Image, r: CreateResult, parent: InodeInfo, name: string, k: nat, info: InodeInfo, alloc: Allocation) {
    var count := img.sb.inodesCount;
    && count < MaxObjects - 2 && k < count && StoreSlot(img, k) == parent
    && alloc == GetFreeBlock(img.sb) && alloc.ret == 0
    && info.inodeNo == count + 1 && info.dataBlock == alloc.block
    && r.img.sb == alloc.sb.(inodesCount := count + 1)
    && |r.img.store| == count + 1
    && r.parent == parent.(payload := ChildrenCount(Raw(parent.payload) + 1))
    && StoreSlot(r.img, k) == r.parent && StoreSlot(r.img, count) == info
    && (forall j: nat :: j != k && j != count ==> StoreSlot(r.img, j) == StoreSlot(img, j))
    && RecordsOf(r.img, parent.dataBlock)
         == WriteSlot(RecordsOf(img, parent.dataBlock), Raw(parent.payload), DirRecord(name, count + 1), EmptyRecord)
    && r.img.blocks == img.blocks[parent.dataBlock := Entries(RecordsOf(r.img, parent.dataBlock))]
  }

  /** When the parent sits in slot k below the new slot, a successful add is `ChildAdded`. */
  lemma NewChildSlots(img: Image, r: CreateResult, parent: InodeInfo, name: string, mode: bv32, payload: Payload, k: nat)
    requires NewChild(img, r, parent, name, mode, payload)
    requires Numbered(img) && k < img.sb.inodesCount && StoreSlot(img, k) == parent
    ensures ChildAdded(img, r, parent, name, k, InodeInfo(mode, img.sb.inodesCount + 1, GetFreeBlock(img.sb).block, payload), GetFreeBlock(img.sb))
  {
    var count := img.sb.inodesCount;
    var k' :| 0 <= k' < count + 1 && StoreSlot(r.img, k') == r.parent
              && (k' < count ==> StoreSlot(img, k').inodeNo == parent.inodeNo
                                 && StoreSlot(r.img, count) == InodeInfo(mode, count + 1, GetFreeBlock(img.sb).block, payload))
              && (k' == count ==> parent.inodeNo == count + 1)
              && forall j: nat :: j != k' && j != count ==> StoreSlot(r.img, j) == StoreSlot(img, j);
    assert k' == k;
  }

  /** The numbering, the types and the root survive adding a child. */
  lemma AddChildKeepsStore(img: Image, r: CreateResult, parent: InodeInfo, name: string, k: nat, info: InodeInfo, alloc: Allocation, dir: bool)
    requires WellFormed(img) && IsDir(parent.mode) && Raw(parent.payload) < RecordsPerBlock
    requires FreshRecord(info.mode, info.payload, dir)
    requires ChildAdded(img, r, parent, name, k, info, alloc)
    ensures Numbered(r.img) && AllTyped(r.img) && RootOk(r.img)
  {
    assert Typed(r.parent.mode, r.parent.payload);
    assert Typed(info.mode, info.payload);
  }

  /** Block ownership survives adding a child. */
  lemma AddChildKeepsBlocks(img: Image, r: CreateResult, parent: InodeInfo, name: string, k: nat, info: InodeInfo, alloc: Allocation)
    requires WellFormed(img)
    requires ChildAdded(img, r, parent, name, k, info, alloc)
    ensures SuperOk(r.img.sb) && OwnBlocks(r.img)
  {
    var count := img.sb.inodesCount;
    var old_, new_ := img.sb.freeBlocks, r.img.sb.freeBlocks;
    assert forall b: nat :: Bit(new_, b) ==> Bit(old_, b);
    forall j | 0 <= j < count + 1
      ensures InUse(r.img.sb, StoreSlot(r.img, j).dataBlock)
      ensures j < count ==> StoreSlot(r.img, j).dataBlock == StoreSlot(img, j).dataBlock != alloc.block
    {
      if j < count {
        assert InUse(img.sb, StoreSlot(img, j).dataBlock);
        assert StoreSlot(img, j).dataBlock != alloc.block;
      } else {
        assert !Bit(new_, alloc.block);
      }
    }
    forall j1, j2 | 0 <= j1 < j2 < count + 1
      ensures StoreSlot(r.img, j1).dataBlock != StoreSlot(r.img, j2).dataBlock
    {
      if j2 < count {
        assert StoreSlot(img, j1).dataBlock != StoreSlot(img, j2).dataBlock;
      }
    }
    forall b | b in r.img.blocks
      ensures !Bit(new_, b)
    {
      if b != parent.dataBlock {
        assert b in img.blocks;
      } else {
        assert InUse(img.sb, StoreSlot(img, k).dataBlock);
      }
    }
  }

  /** Every directory's entries still resolve after adding a child. */
  lemma AddChildKeepsEntries(img: Image, r: CreateResult, parent: InodeInfo, name: string, k: nat, info: InodeInfo, alloc: Allocation)
    requires WellFormed(img) && IsDir(parent.mode) && Raw(info.payload) == 0
    requires ChildAdded(img, r, parent, name, k, info, alloc)
    ensures EntriesResolve(r.img)
  {
    var count := img.sb.inodesCount;
    forall j, i | 0 <= j < count + 1 && IsDir(StoreSlot(r.img, j).mode) && 0 <= i < Raw(StoreSlot(r.img, j).payload)
      ensures 1 <= RecordAt(RecordsOf(r.img, StoreSlot(r.img, j).dataBlock), i).inodeNo <= count + 1
    {
      if j == k {
        ParentEntryResolves(img, r, parent, name, k, info, alloc, i);
      } else if j != count {
        OtherEntryResolves(img, r, parent, name, k, info, alloc, j, i);
      }
    }
  }

  /** The parent's entries are its old ones followed by the new child's. */
  lemma ParentEntryResolves(img: Image, r: CreateResult, parent: InodeInfo, name: string, k: nat, info: InodeInfo, alloc: Allocation, i: nat)
    requires WellFormed(img) && IsDir(parent.mode)
    requires ChildAdded(img, r, parent, name, k, info, alloc)
    requires i < Raw(parent.payload) + 1
    ensures 1 <= RecordAt(RecordsOf(r.img, parent.dataBlock), i).inodeNo <= img.sb.inodesCount + 1
  {
    if i < Raw(parent.payload) {
      assert RecordAt(RecordsOf(r.img, parent.dataBlock), i) == RecordAt(RecordsOf(img, parent.dataBlock), i);
      assert 1 <= RecordAt(RecordsOf(img, StoreSlot(img, k).dataBlock), i).inodeNo <= img.sb.inodesCount;
    } else {
      assert RecordAt(RecordsOf(r.img, parent.dataBlock), i) == DirRecord(name, img.sb.inodesCount + 1);
    }
  }

  /** Any other directory owns a block other than the parent's, which is untouched. */
  lemma OtherEntryResolves(img: Image, r: CreateResult, parent: InodeInfo, name: string, k: nat, info: InodeInfo, alloc: Allocation, j: nat, i: nat)
    requires WellFormed(img)
    requires ChildAdded(img, r, parent, name, k, info, alloc)
    requires j < img.sb.inodesCount && j != k
    requires IsDir(StoreSlot(img, j).mode) && i < Raw(StoreSlot(img, j).payload)
    ensures StoreSlot(r.img, j) == StoreSlot(img, j)
    ensures 1 <= RecordAt(RecordsOf(r.img, StoreSlot(img, j).dataBlock), i).inodeNo <= img.sb.inodesCount
  {
    assert StoreSlot(img, j).dataBlock != parent.dataBlock by {
      if j < k { assert StoreSlot(img, j).dataBlock != StoreSlot(img, k).dataBlock; }
      else { assert StoreSlot(img, k).dataBlock != StoreSlot(img, j).dataBlock; }
    }
    assert RecordsOf(r.img, StoreSlot(img, j).dataBlock) == RecordsOf(img, StoreSlot(img, j).dataBlock);
  }

  /** Create of a regular file under a coherent directory with room keeps the image well formed. */
  lemma CreateBoundedPreserves(img: Image, parent: InodeInfo, name: string, mode: bv32)
    requires WellFormed(img) && Coherent(img, parent) && IsDir(parent.mode) && IsReg(mode)
    ensures var r := CreateBounded(img, parent, name, mode);
            && WellFormed(r.img)
            && (r.ret == 0 ==> Coherent(r.img, r.parent) && GetInodeInfo(r.img, img.sb.inodesCount + 1).Some?)
            && (r.ret == -1 ==> r == CreateResult(-1, img, parent))
  {
    if Raw(parent.payload) < RecordsPerBlock {
      AddChildPreserves(img, parent, name, mode, FileSize(0), false);
    }
  }

  /** Permission bits with the directory type added make a directory mode. */
  lemma DirModeOf(mode: bv32)
    requires NoTypeBits(mode)
    ensures IsDir(S_IFDIR | mode)
  {
  }

  /** Mkdir under a coherent directory with room keeps the image well formed. */
  lemma MkdirBoundedPreserves(img: Image, parent: InodeInfo, name: string, mode: bv32)
    requires WellFormed(img) && Coherent(img, parent) && IsDir(parent.mode) && NoTypeBits(mode)
    ensures var r := MkdirBounded(img, parent, name, mode);
            && WellFormed(r.img)
            && (r.ret == 0 ==> Coherent(r.img, r.parent) && GetInode(r.img, img.sb.inodesCount + 1).Some?
                               && GetInode(r.img, img.sb.inodesCount + 1).value.ops == DirectoryOps)
            && (r.ret == -1 ==> r == CreateResult(-1, img, parent))
  {
    if Raw(parent.payload) < RecordsPerBlock {
      DirModeOf(mode);
      AddChildPreserves(img, parent, name, S_IFDIR | mode, ChildrenCount(0), true);
    }
  }

  /**
   * Writing to a coherent regular file keeps the image well formed and
   * succeeds exactly when the write fits in the block; the in-memory
   * record stays coherent.
   */
  lemma WritePreserves(img: Image, info: InodeInfo, pos: nat, buf: seq<byte>)
    requires WellFormed(img) && Coherent(img, info) && IsReg(info.mode)
    ensures var w := Write(img, info, pos, buf);
            && WellFormed(w.img)
            && (w.ret == |buf| <==> pos + |buf| <= BlockSize)
            && (w.ret == |buf| ==> Coherent(w.img, w.info))
  {
    var w := Write(img, info, pos, buf);
    CoherentSlot(img, info);
    var k := info.inodeNo - 1;
    if pos + |buf| <= BlockSize {
      assert StoreSlot(img, k).inodeNo == info.inodeNo;
      assert w.ret == |buf|;
      var k' :| 0 <= k' < img.sb.inodesCount && StoreSlot(img, k').inodeNo == info.inodeNo
                && StoreSlot(w.img, k') == w.info
                && forall j: nat :: j != k' ==> StoreSlot(w.img, j) == StoreSlot(img, j);
      assert k' == k;
      WriteKeeps(img, info, w, k);
    }
  }

  /** The invariant after a write that fitted and was saved into slot k. */
  lemma WriteKeeps(img: Image, info: InodeInfo, w: WriteResult, k: nat)
    requires WellFormed(img) && IsReg(info.mode)
    requires k < img.sb.inodesCount && StoreSlot(img, k) == info
    requires w.info == info.(payload := FileSize(Raw(w.info.payload))) && Raw(w.info.payload) <= BlockSize
    requires w.img.sb == img.sb && |w.img.store| == |img.store|
    requires exists d :: w.img.blocks == img.blocks[info.dataBlock := Data(d)]
    requires StoreSlot(w.img, k) == w.info
    requires forall j: nat :: j != k ==> StoreSlot(w.img, j) == StoreSlot(img, j)
    ensures WellFormed(w.img) && Coherent(w.img, w.info)
  {
    var count := img.sb.inodesCount;
    DirIsNotReg(info.mode);
    assert Typed(w.info.mode, w.info.payload);
    assert k != 0;
    forall b | b in w.img.blocks
      ensures !Bit(w.img.sb.freeBlocks, b)
    {
      if b != info.dataBlock {
        assert b in img.blocks;
      } else {
        assert InUse(img.sb, StoreSlot(img, k).dataBlock);
      }
    }
    forall j, i | 0 <= j < count && IsDir(StoreSlot(w.img, j).mode) && 0 <= i < Raw(StoreSlot(w.img, j).payload)
      ensures 1 <= RecordAt(RecordsOf(w.img, StoreSlot(w.img, j).dataBlock), i).inodeNo <= count
    {
      assert j != k;
      assert StoreSlot(img, j).dataBlock != info.dataBlock by {
        if j < k { assert StoreSlot(img, j).dataBlock != StoreSlot(img, k).dataBlock; }
        else { assert StoreSlot(img, k).dataBlock != StoreSlot(img, j).dataBlock; }
      }
      assert 1 <= RecordAt(RecordsOf(img, StoreSlot(img, j).dataBlock), i).inodeNo <= count;
    }
    forall j1, j2 | 0 <= j1 < j2 < count
      ensures StoreSlot(w.img, j1).dataBlock != StoreSlot(w.img, j2).dataBlock
    {
      assert StoreSlot(img, j1).dataBlock != StoreSlot(img, j2).dataBlock;
    }
    assert OwnBlocks(w.img);
    SlotFound(w.img, k);
  }

  // ---------------------------------------------------------------------------
  // The unchecked directory capacity
  // ---------------------------------------------------------------------------

  /**
   * Create as written accepts a parent whose block is already full: with
   * `RecordsPerBlock` entries and a free block it succeeds, writes the new
   * entry at byte offset 15 * 264, whose last byte lies past the 4096-byte
   * block, and leaves an image that is no longer well formed.
   */
  lemma CreateOverflowsFullDirectory(img: Image, parent: InodeInfo, name: string, mode: bv32)
    requires WellFormed(img) && Coherent(img, parent) && IsDir(parent.mode) && IsReg(mode)
    requires Raw(parent.payload) == RecordsPerBlock
    requires img.sb.inodesCount < MaxObjects - 2 && GetFreeBlock(img.sb).ret == 0
    ensures var r := Create(img, parent, name, mode);
            && r.ret == 0
            && (Raw(parent.payload) + 1) * DirRecordSize > BlockSize
            && Raw(r.parent.payload) == RecordsPerBlock + 1
            && !WellFormed(r.img)
  {
    var r := Create(img, parent, name, mode);
    CoherentSlot(img, parent);
    assert r.ret == 0;
    var count := img.sb.inodesCount;
    var k :| 0 <= k < count + 1 && StoreSlot(r.img, k) == r.parent
              && (k == count ==> parent.inodeNo == count + 1);
    assert k < count + 1 && !Typed(StoreSlot(r.img, k).mode, StoreSlot(r.img, k).payload);
  }
}
