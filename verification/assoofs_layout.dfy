/**
 * The on-disk vocabulary of assoofs: its constants and the three records
 * stored on the device (superblock, inode record, directory record), plus
 * the abstract disk image the operations transform.
 *
 * Block 0 holds the superblock, block 1 the inode store (an array of inode
 * records), and every other block is either a directory block (an array of
 * directory records) or the data of one regular file.
 */
module AssoofsLayout {

  // ---------------------------------------------------------------------------
  // Constants
  // ---------------------------------------------------------------------------

  const Magic: nat := 0x20200406
  const BlockSize: nat := 4096
  const FilenameMaxLen: nat := 255

  const RootDirBlockNumber: nat := 2
  const RootDirInodeNumber: nat := 1
  const LastReservedBlock: nat := RootDirBlockNumber
  const LastReservedInode: nat := RootDirInodeNumber
  const MaxObjects: nat := 64

  /** Byte sizes of the records on a 64-bit target (LP64, natural alignment). */
  const U64Bytes: nat := 8
  const SuperBlockPadding: nat := 4056
  /** 255 name bytes, one alignment byte, an 8-byte inode number. */
  const DirRecordSize: nat := 264
  /** A 4-byte mode, four alignment bytes, three 8-byte fields. */
  const InodeInfoSize: nat := 32

  /** The block, the inode record and the directory record sizes fit together:
      the superblock is five 8-byte fields and its padding, one block of
      inode store holds a record for every object the filesystem allows,
      and a directory record is its name, one alignment byte and a number. */
  lemma PaddedLayouts()
    ensures 5 * U64Bytes + SuperBlockPadding == BlockSize
    ensures (MaxObjects - 2) * InodeInfoSize <= BlockSize
    ensures FilenameMaxLen + 1 + U64Bytes == DirRecordSize
    ensures RecordsPerBlock == 15 && BlockSize / InodeInfoSize == 128
    ensures RecordsPerBlock * DirRecordSize <= BlockSize < (RecordsPerBlock + 1) * DirRecordSize
  {
  }

  /** How many directory records fit in one block. */
  const RecordsPerBlock: nat := BlockSize / DirRecordSize

  type byte = x: int | 0 <= x < 256

  // ---------------------------------------------------------------------------
  // File mode bits (the Linux <sys/stat.h> encoding)
  // ---------------------------------------------------------------------------

  const S_IFMT: bv32 := 0xF000
  const S_IFDIR: bv32 := 0x4000
  const S_IFREG: bv32 := 0x8000

  predicate IsDir(mode: bv32) {
    mode & S_IFMT == S_IFDIR
  }

  predicate IsReg(mode: bv32) {
    mode & S_IFMT == S_IFREG
  }

  /** Permission bits only, as the kernel passes them to mkdir. */
  predicate NoTypeBits(mode: bv32) {
    mode & S_IFMT == 0
  }

  // ---------------------------------------------------------------------------
  // Records
  // ---------------------------------------------------------------------------

  /**
   * The superblock. `freeBlocks` is the 64-bit free-block word, bit i
   * (flag i) set when block i is free.
   */
  datatype SuperBlockInfo = SuperBlockInfo(
    version: nat,
    magic: nat,
    blockSize: nat,
    inodesCount: nat,
    freeBlocks: seq<bool>)

  /** Flag i of a bitmap; flags past its end read as clear. */
  predicate Bit(bits: seq<bool>, i: nat) {
    i < |bits| && bits[i]
  }

  /** A directory record: a file name and the inode it names. */
  datatype DirRecord = DirRecord(filename: string, inodeNo: nat)

  /**
   * The inode record's union: a regular file stores its size, a directory
   * its child count, in the same eight bytes.
   */
  datatype Payload = FileSize(size: nat) | ChildrenCount(count: nat)

  /** The shared storage, read whichever member was last written. */
  function Raw(p: Payload): nat {
    match p
    case FileSize(n) => n
    case ChildrenCount(n) => n
  }

  datatype InodeInfo = InodeInfo(mode: bv32, inodeNo: nat, dataBlock: nat, payload: Payload)

  /** The content of a data-area block, in the interpretation last written to it. */
  datatype Block = Data(bytes: seq<byte>) | Entries(records: seq<DirRecord>)

  /**
   * The device: the superblock (block 0), the slots of the inode store
   * (block 1) and the content of every other block written so far.
   */
  datatype Image = Image(sb: SuperBlockInfo, store: seq<InodeInfo>, blocks: map<nat, Block>)

  // ---------------------------------------------------------------------------
  // Slot arrays over a zero-filled device
  // ---------------------------------------------------------------------------

  const EmptyRecord: DirRecord := DirRecord("", 0)
  const ZeroInode: InodeInfo := InodeInfo(0, 0, 0, FileSize(0))

  /** Slot i of an array of records; slots never written read as the zero record. */
  function Slot<T>(s: seq<T>, i: nat, zero: T): T {
    if i < |s| then s[i] else zero
  }

  /** Overwrites slot i, leaving every other slot as it was. */
  function WriteSlot<T>(s: seq<T>, i: nat, v: T, zero: T): (r: seq<T>)
    ensures |r| == if i < |s| then |s| else i + 1
    ensures forall j: nat :: Slot(r, j, zero) == if j == i then v else Slot(s, j, zero)
  {
    if i < |s| then s[i := v]
    else s + seq(i - |s|, _ => zero) + [v]
  }

  function ByteAt(bytes: seq<byte>, i: nat): byte {
    Slot(bytes, i, 0)
  }

  function RecordAt(records: seq<DirRecord>, i: nat): DirRecord {
    Slot(records, i, EmptyRecord)
  }

  function StoreSlot(img: Image, k: nat): InodeInfo {
    Slot(img.store, k, ZeroInode)
  }

  /** A block read as file data. */
  function BytesOf(img: Image, b: nat): seq<byte> {
    if b in img.blocks && img.blocks[b].Data? then img.blocks[b].bytes else []
  }

  /** A block read as directory records. */
  function RecordsOf(img: Image, b: nat): seq<DirRecord> {
    if b in img.blocks && img.blocks[b].Entries? then img.blocks[b].records else []
  }
}
