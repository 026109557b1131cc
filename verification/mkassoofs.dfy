/**
 * `mkassoofs`: formats a device with a superblock, an inode store holding
 * the root directory and a welcome file, the root directory block with the
 * single entry "README.txt", and the welcome file's body.
 */
module Mkassoofs {
  import opened Wrappers
  import opened AssoofsLayout
  import opened SuperBlockCodec
  import opened InodeStore
  import opened Mount

  const WelcomeFileDataBlockNumber: nat := 3
  const WelcomeFileInodeNumber: nat := 2
  const WelcomeBody: string := "Hola mundo, os saludo desde un sistema de ficheros ASSOOFS.\n"

  /** Each character's code as a byte, as a C string literal stores it. */
  function AsciiBytes(s: string): (bs: seq<byte>)
    ensures |bs| == |s|
    ensures forall i :: 0 <= i < |s| ==> bs[i] == (s[i] as int) % 256
  {
    seq(|s|, i requires 0 <= i < |s| => (s[i] as int) % 256)
  }

  /** The body array including its terminating NUL, the `sizeof` the file size is taken from. */
  function WelcomeBodyBytes(): (bs: seq<byte>)
    ensures |bs| == |WelcomeBody| + 1 && bs[|bs| - 1] == 0
    ensures forall i :: 0 <= i < |WelcomeBody| ==> bs[i] == (WelcomeBody[i] as int) % 256
  {
    AsciiBytes(WelcomeBody) + [0]
  }

  /** Blocks 0-3 (superblock, inode store, root directory, welcome file) used, the rest free. */
  function InitialFreeBlocks(): (bits: seq<bool>)
    ensures |bits| == MaxObjects
  {
    seq(MaxObjects, i => i >= 4)
  }

  /** `(~0) & ~(15)` evaluated as int and stored in the 64-bit field: 2^64 - 16. */
  const InitialFreeWord: nat := U64Limit - 16

  const FormattedSuperBlock: SuperBlockInfo :=
    SuperBlockInfo(1, Magic, BlockSize, WelcomeFileInodeNumber, InitialFreeBlocks())

  const RootInode: InodeInfo :=
    InodeInfo(S_IFDIR, RootDirInodeNumber, RootDirBlockNumber, ChildrenCount(1))

  const WelcomeInode: InodeInfo :=
    InodeInfo(S_IFREG, WelcomeFileInodeNumber, WelcomeFileDataBlockNumber, FileSize(|WelcomeBody| + 1))

  const WelcomeRecord: DirRecord := DirRecord("README.txt", WelcomeFileInodeNumber)

  // ---------------------------------------------------------------------------
  // The five writes of main
  // ---------------------------------------------------------------------------

  datatype Step = WriteSuperblock | WriteRootInode | WriteWelcomeInode | WriteDirent | WriteBlock

  const Steps: seq<Step> := [WriteSuperblock, WriteRootInode, WriteWelcomeInode, WriteDirent, WriteBlock]

  /** An unformatted, zero-filled device. */
  const Blank: Image := Image(SuperBlockInfo(0, 0, 0, 0, []), [], map[])

  /**
   * What each step stores on the device: the superblock, inode slot 0 or 1,
   * the root directory block, or the welcome file's block; everything else
   * is left as it was.
   */
  function Apply(step: Step, img: Image): (r: Image)
    ensures r.sb == if step == WriteSuperblock then FormattedSuperBlock else img.sb
    ensures forall j: nat :: StoreSlot(r, j) ==
              if step == WriteRootInode && j == 0 then RootInode
              else if step == WriteWelcomeInode && j == 1 then WelcomeInode
              else StoreSlot(img, j)
    ensures forall b :: b in r.blocks <==>
              b in img.blocks
              || (step == WriteDirent && b == RootDirBlockNumber)
              || (step == WriteBlock && b == WelcomeFileDataBlockNumber)
    ensures step == WriteDirent ==> RecordsOf(r, RootDirBlockNumber) == [WelcomeRecord]
    ensures step == WriteBlock ==> BytesOf(r, WelcomeFileDataBlockNumber) == WelcomeBodyBytes()
    ensures forall b :: (b in img.blocks && !(step == WriteDirent && b == RootDirBlockNumber)
                           && !(step == WriteBlock && b == WelcomeFileDataBlockNumber)) ==> r.blocks[b] == img.blocks[b]
  {
    match step
    case WriteSuperblock => img.(sb := FormattedSuperBlock)
    case WriteRootInode => img.(store := WriteSlot(img.store, 0, RootInode, ZeroInode))
    case WriteWelcomeInode => img.(store := WriteSlot(img.store, 1, WelcomeInode, ZeroInode))
    case WriteDirent => img.(blocks := img.blocks[RootDirBlockNumber := Entries([WelcomeRecord])])
    case WriteBlock => img.(blocks := img.blocks[WelcomeFileDataBlockNumber := Data(WelcomeBodyBytes())])
  }

  /** The device after the first n steps. */
  function ApplyFirst(n: nat, img: Image): Image
    requires n <= |Steps|
  {
    if n == 0 then img else Apply(Steps[n - 1], ApplyFirst(n - 1, img))
  }

  /** Whether step k's write (and its seek past the padding) succeeded; the I/O outcome is an input. */
  predicate Succeeds(ok: seq<bool>, k: nat) {
    k < |ok| && ok[k]
  }

  /** Runs the steps from step k onwards, stopping at the first failure; yields how many succeeded. */
  function RunFrom(k: nat, ok: seq<bool>): (done: nat)
    requires k <= |Steps|
    ensures k <= done <= |Steps|
    ensures forall j :: k <= j < done ==> Succeeds(ok, j)
    ensures done < |Steps| ==> !Succeeds(ok, done)
    decreases |Steps| - k
  {
    if k == |Steps| || !Succeeds(ok, k) then k else RunFrom(k + 1, ok)
  }

  datatype MkfsResult = MkfsResult(status: int, stepsDone: nat, img: Image)

  /**
   * `main`: -1 for a wrong argument count or a device that cannot be
   * opened; otherwise the steps run in order until one fails, and the exit
   * status is 0 when all five succeeded and 1 (the initial `ret`) when one
   * did not.
   */
  function RunMkfs(argc: int, deviceOpened: bool, ok: seq<bool>): (r: MkfsResult)
    ensures r.status == 0 <==> argc == 2 && deviceOpened && forall k :: 0 <= k < |Steps| ==> Succeeds(ok, k)
    ensures argc != 2 || !deviceOpened ==> r == MkfsResult(-1, 0, Blank)
    ensures argc == 2 && deviceOpened && r.status != 0 ==>
              && r.status == 1 && r.stepsDone < |Steps| && !Succeeds(ok, r.stepsDone)
              && forall k :: 0 <= k < r.stepsDone ==> Succeeds(ok, k)
    ensures r.stepsDone <= |Steps| && r.img == ApplyFirst(r.stepsDone, Blank)
  {
    if argc != 2 || !deviceOpened then MkfsResult(-1, 0, Blank)
    else
      var done := RunFrom(0, ok);
      MkfsResult(if done == |Steps| then 0 else 1, done, ApplyFirst(done, Blank))
  }

  /** The formatted image, stated directly. */
  function Formatted(): Image {
    Image(FormattedSuperBlock, [RootInode, WelcomeInode],
          map[RootDirBlockNumber := Entries([WelcomeRecord]),
              WelcomeFileDataBlockNumber := Data(WelcomeBodyBytes())])
  }

  /** Running all five steps on a blank device produces exactly the formatted image. */
  lemma AllStepsFormat()
    ensures ApplyFirst(|Steps|, Blank) == Formatted()
  {
    var s2 := ApplyFirst(2, Blank);
    assert s2.store == [RootInode];
    var s3 := ApplyFirst(3, Blank);
    assert s3.store == [RootInode, WelcomeInode];
  }

  // ---------------------------------------------------------------------------
  // Facts about the formatted image
  // ---------------------------------------------------------------------------

  /** The word of a bitmap whose flags k..n-1 are set is 2^n - 2^k. */
  lemma {:induction false} WordOfSuffix(n: nat, k: nat)
    requires k <= n
    ensures Word(seq(n, i => i >= k)) == Pow2(n) - Pow2(k)
    decreases n
  {
    var s := seq(n, i => i >= k);
    if n > 0 {
      if k == 0 {
        WordOfSuffix(n - 1, 0);
        assert s[1..] == seq(n - 1, i => i >= 0);
      } else {
        WordOfSuffix(n - 1, k - 1);
        assert s[1..] == seq(n - 1, i => i >= k - 1);
      }
    }
  }

  /** The initial bitmap is the word 2^64 - 16: bits 0-3 clear, every other bit set. */
  lemma InitialBitmap()
    ensures |InitialFreeBlocks()| == 64
    ensures forall i :: 0 <= i < 4 ==> !Bit(InitialFreeBlocks(), i)
    ensures forall i :: 4 <= i < 64 ==> Bit(InitialFreeBlocks(), i)
    ensures Word(InitialFreeBlocks()) == InitialFreeWord
  {
    InitialWord();
  }

  lemma InitialWord()
    ensures Word(InitialFreeBlocks()) == InitialFreeWord
  {
    WordOfSuffix(64, 4);
    assert Pow2(4) == 16;
    U64Bounds();
  }

  /** The formatted superblock: version 1, the magic number, 4096-byte blocks, two inodes. */
  lemma FormattedSuperBlockFacts()
    ensures var sb := Formatted().sb;
            sb.version == 1 && sb.magic == 0x20200406 && sb.blockSize == 4096 && sb.inodesCount == 2
    ensures Fits(Formatted().sb)
    ensures DecodeSuperBlock(EncodeSuperBlock(Formatted().sb)) == Formatted().sb
  {
    InitialBitmap();
    U64Bounds();
    SuperBlockRoundTrip(Formatted().sb);
  }

  /** The formatted image passes the mount checks and yields the root directory's record. */
  lemma FormattedMounts()
    ensures FillSuper(Formatted()).Success?
    ensures FillSuper(Formatted()).value.rootInfo == Some(RootInode)
  {
    assert StoreSlot(Formatted(), 0) == RootInode;
  }

  /**
   * The root is a directory with number 1 on block 2 and one child; the
   * welcome file is regular, number 2 on block 3, its size the body length
   * with its NUL; the root block holds the single entry ("README.txt", 2).
   */
  lemma FormattedInodes()
    ensures IsDir(RootInode.mode) && RootInode.inodeNo == 1 && RootInode.dataBlock == 2
    ensures RootInode.payload == ChildrenCount(1)
    ensures IsReg(WelcomeInode.mode) && WelcomeInode.inodeNo == LastReservedInode + 1 == 2
    ensures WelcomeInode.dataBlock == LastReservedBlock + 1 == 3
    ensures WelcomeInode.payload == FileSize(|WelcomeBodyBytes()|) && |WelcomeBodyBytes()| == 61
    ensures GetInodeInfo(Formatted(), 1) == Some(RootInode) && GetInodeInfo(Formatted(), 2) == Some(WelcomeInode)
    ensures RecordsOf(Formatted(), 2) == [DirRecord("README.txt", 2)]
    ensures |RecordsOf(Formatted(), RootInode.dataBlock)| == Raw(RootInode.payload)
    ensures BytesOf(Formatted(), 3) == WelcomeBodyBytes()
  {
    assert StoreSlot(Formatted(), 0) == RootInode;
    assert StoreSlot(Formatted(), 1) == WelcomeInode;
  }
}
