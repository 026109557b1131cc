/**
 * The inode store (block 1) and the free-block bitmap of the superblock:
 * `assoofs_get_inode_info`, `assoofs_add_inode_info`,
 * `assoofs_search_inode_info`, `assoofs_save_inode_info` and
 * `assoofs_sb_get_a_freeblock`.
 */
module InodeStore {
  import opened Wrappers
  import opened AssoofsLayout

  // ---------------------------------------------------------------------------
  // Finding a record by number
  // ---------------------------------------------------------------------------

  /** The first slot in [from, limit) whose record has number `ino`. */
  function FindFrom(img: Image, from: nat, limit: nat, ino: nat): (r: Option<nat>)
    ensures r.Some? ==> from <= r.value < limit && StoreSlot(img, r.value).inodeNo == ino
    ensures r.Some? ==> forall j :: from <= j < r.value ==> StoreSlot(img, j).inodeNo != ino
    ensures r.None? ==> forall j :: from <= j < limit ==> StoreSlot(img, j).inodeNo != ino
    decreases limit - from
  {
    if from >= limit then None
    else if StoreSlot(img, from).inodeNo == ino then Some(from)
    else FindFrom(img, from + 1, limit, ino)
  }

  /**
   * `assoofs_get_inode_info`: a copy of the first of the first
   * `inodes_count` records whose number is `ino`, or nothing.
   */
  function GetInodeInfo(img: Image, ino: nat): (r: Option<InodeInfo>)
    ensures r.Some? ==> r.value.inodeNo == ino
    ensures r.Some? <==> exists k :: 0 <= k < img.sb.inodesCount && StoreSlot(img, k).inodeNo == ino
    ensures r.Some? ==> exists k :: 0 <= k < img.sb.inodesCount && StoreSlot(img, k) == r.value
                          && forall j :: 0 <= j < k ==> StoreSlot(img, j).inodeNo != ino
  {
    match FindFrom(img, 0, img.sb.inodesCount, ino)
    case None => None
    case Some(k) => Some(StoreSlot(img, k))
  }

  // ---------------------------------------------------------------------------
  // Appending a record
  // ---------------------------------------------------------------------------

  /**
   * `assoofs_add_inode_info`: writes the record into slot `inodes_count`
   * and increments `inodes_count`; no other slot, block or superblock
   * field changes.
   */
  function AddInodeInfo(img: Image, info: InodeInfo): (r: Image)
    ensures r.sb == img.sb.(inodesCount := img.sb.inodesCount + 1)
    ensures StoreSlot(r, img.sb.inodesCount) == info
    ensures forall j: nat :: j != img.sb.inodesCount ==> StoreSlot(r, j) == StoreSlot(img, j)
    ensures r.blocks == img.blocks
    ensures |img.store| == img.sb.inodesCount ==> |r.store| == img.sb.inodesCount + 1
  {
    var count := img.sb.inodesCount;
    Image(img.sb.(inodesCount := count + 1), WriteSlot(img.store, count, info, ZeroInode), img.blocks)
  }

  // ---------------------------------------------------------------------------
  // Searching and saving
  // ---------------------------------------------------------------------------

  /**
   * `assoofs_search_inode_info` as written: the loop stops at a match or
   * once `count` reaches `inodes_count`, and the slot it stopped at is
   * then compared once more, so slot `inodes_count` (one past the last
   * record) is examined too.
   */
  function SearchAsWritten(img: Image, ino: nat, count: nat): (r: Option<nat>)
    requires count <= img.sb.inodesCount
    ensures r.Some? ==> count <= r.value <= img.sb.inodesCount && StoreSlot(img, r.value).inodeNo == ino
    ensures r.Some? ==> forall j :: count <= j < r.value ==> StoreSlot(img, j).inodeNo != ino
    ensures r.None? ==> forall j :: count <= j <= img.sb.inodesCount ==> StoreSlot(img, j).inodeNo != ino
    decreases img.sb.inodesCount - count
  {
    if StoreSlot(img, count).inodeNo != ino && count < img.sb.inodesCount then
      SearchAsWritten(img, ino, count + 1)
    else if StoreSlot(img, count).inodeNo == ino then Some(count)
    else None
  }

  /** The search the function is meant to perform: only the `inodes_count` records. */
  function Search(img: Image, ino: nat): (r: Option<nat>)
    ensures r.Some? ==> r.value < img.sb.inodesCount && StoreSlot(img, r.value).inodeNo == ino
    ensures r.Some? ==> forall j :: 0 <= j < r.value ==> StoreSlot(img, j).inodeNo != ino
    ensures r.None? ==> forall j :: 0 <= j < img.sb.inodesCount ==> StoreSlot(img, j).inodeNo != ino
  {
    FindFrom(img, 0, img.sb.inodesCount, ino)
  }

  /** The two searches differ only when the slot past the last record carries the number. */
  lemma SearchAgreesInRange(img: Image, ino: nat)
    requires StoreSlot(img, img.sb.inodesCount).inodeNo != ino
    ensures SearchAsWritten(img, ino, 0) == Search(img, ino)
  {
    var a, b := SearchAsWritten(img, ino, 0), Search(img, ino);
    if a.Some? && b.Some? {
      assert !(a.value < b.value) && !(b.value < a.value);
    }
  }

  /** The status of a call that returns 0 on success and -1 on failure. */
  datatype Saved = Saved(ret: int, img: Image)

  /**
   * `assoofs_save_inode_info`: overwrites the record carrying the same
   * number and returns 0; returns -1 and changes nothing when no record
   * carries it. Uses the in-range search.
   */
  function SaveInodeInfo(img: Image, info: InodeInfo): (r: Saved)
    ensures r.ret == 0 || r.ret == -1
    ensures r.ret == -1 <==> forall j :: 0 <= j < img.sb.inodesCount ==> StoreSlot(img, j).inodeNo != info.inodeNo
    ensures r.ret == -1 ==> r.img == img
    ensures r.ret == 0 ==> exists k :: 0 <= k < img.sb.inodesCount && StoreSlot(img, k).inodeNo == info.inodeNo
                             && (forall j :: 0 <= j < k ==> StoreSlot(img, j).inodeNo != info.inodeNo)
                             && StoreSlot(r.img, k) == info
                             && forall j: nat :: j != k ==> StoreSlot(r.img, j) == StoreSlot(img, j)
    ensures r.img.sb == img.sb && r.img.blocks == img.blocks
    ensures |img.store| >= img.sb.inodesCount ==> |r.img.store| == |img.store|
  {
    match Search(img, info.inodeNo)
    case None => Saved(-1, img)
    case Some(k) => Saved(0, img.(store := WriteSlot(img.store, k, info, ZeroInode)))
  }

  // ---------------------------------------------------------------------------
  // Free-block allocation
  // ---------------------------------------------------------------------------

  /** The first set flag at or after `from`, below `MaxObjects`; `MaxObjects` when none. */
  function FirstFree(bits: seq<bool>, from: nat): (i: nat)
    requires from <= MaxObjects
    ensures from <= i <= MaxObjects
    ensures i < MaxObjects ==> Bit(bits, i)
    ensures forall j :: from <= j < i ==> !Bit(bits, j)
    decreases MaxObjects - from
  {
    if from == MaxObjects || Bit(bits, from) then from else FirstFree(bits, from + 1)
  }

  /** The outcome of `assoofs_sb_get_a_freeblock`: its status, the block it hands out, the new superblock. */
  datatype Allocation = Allocation(ret: int, block: nat, sb: SuperBlockInfo)

  /**
   * `assoofs_sb_get_a_freeblock`: scans blocks 2..63 for the first free
   * one, then rejects any index of at least `MaxObjects - 2`, so blocks 62
   * and 63 are never handed out. On success clears exactly the flag of the
   * returned block.
   */
  function GetFreeBlock(sb: SuperBlockInfo): (r: Allocation)
    ensures r.ret == 0 || r.ret == -1
    ensures r.ret == 0 ==> 2 <= r.block < MaxObjects - 2 && Bit(sb.freeBlocks, r.block)
    ensures r.ret == 0 ==> forall j :: 2 <= j < r.block ==> !Bit(sb.freeBlocks, j)
    ensures r.ret == 0 ==> r.sb == sb.(freeBlocks := r.sb.freeBlocks) && |r.sb.freeBlocks| == |sb.freeBlocks|
    ensures r.ret == 0 ==> forall j: nat :: Bit(r.sb.freeBlocks, j) == (Bit(sb.freeBlocks, j) && j != r.block)
    ensures r.ret == -1 <==> forall j :: 2 <= j < MaxObjects - 2 ==> !Bit(sb.freeBlocks, j)
    ensures r.ret == -1 ==> r.sb == sb
  {
    var i := FirstFree(sb.freeBlocks, 2);
    if i >= MaxObjects - 2 then Allocation(-1, 0, sb)
    else Allocation(0, i, sb.(freeBlocks := sb.freeBlocks[i := false]))
  }

  /** Even when block 62 is the only free block, allocation fails. */
  lemma BlockSixtyTwoNeverAllocated()
    ensures GetFreeBlock(SuperBlockInfo(1, Magic, BlockSize, 2, seq(MaxObjects, i => i == 62))).ret == -1
  {
  }
}
