/**
 * The regular-file operations `assoofs_read` and `assoofs_write`. A file
 * lives in one data block, so its size never exceeds `BlockSize` through
 * a write. Each call receives the in-memory copy of the file's inode
 * record (the kernel inode's private data) and the file position.
 */
module FileOps {
  import opened AssoofsLayout
  import opened InodeStore

  /** What a read hands back: its return value, the bytes copied out, the new position. */
  datatype ReadResult = ReadResult(ret: int, bytes: seq<byte>, pos: nat)

  /**
   * `assoofs_read`: nothing at or past the end of the file; otherwise
   * `min(file_size - pos, len)` bytes of the data block starting at `pos`,
   * and the position advances by that many bytes.
   */
  function Read(img: Image, info: InodeInfo, pos: nat, len: nat): (r: ReadResult)
    ensures r.ret == |r.bytes| && r.pos == pos + |r.bytes|
    ensures pos >= Raw(info.payload) ==> r.ret == 0 && r.pos == pos
    ensures pos < Raw(info.payload) ==> |r.bytes| == (if Raw(info.payload) - pos < len then Raw(info.payload) - pos else len)
    ensures pos < Raw(info.payload) ==> r.pos <= Raw(info.payload)
    ensures forall i :: 0 <= i < |r.bytes| ==> r.bytes[i] == ByteAt(BytesOf(img, info.dataBlock), pos + i)
  {
    var size := Raw(info.payload);
    if pos >= size then ReadResult(0, [], pos)
    else
      var n := if size - pos < len then size - pos else len;
      var data := BytesOf(img, info.dataBlock);
      ReadResult(n, seq<byte>(n, i requires 0 <= i < n => ByteAt(data, pos + i)), pos + n)
  }

  /** The bytes of `data` with [pos, pos + |buf|) replaced by `buf`. */
  function Overwrite(data: seq<byte>, pos: nat, buf: seq<byte>): (r: seq<byte>)
    ensures |r| == if pos + |buf| > |data| then pos + |buf| else |data|
    ensures forall i: nat :: ByteAt(r, i) == if pos <= i < pos + |buf| then buf[i - pos] else ByteAt(data, i)
  {
    var n := if pos + |buf| > |data| then pos + |buf| else |data|;
    seq<byte>(n, i requires 0 <= i < n => if pos <= i < pos + |buf| then buf[i - pos] else ByteAt(data, i))
  }

  /** What a write leaves behind: its return value, the device, the in-memory inode, the position. */
  datatype WriteResult = WriteResult(ret: int, img: Image, info: InodeInfo, pos: nat)

  /**
   * `assoofs_write`: -1 and no change when `pos + len` exceeds the block;
   * otherwise bytes [pos, pos + len) of the data block become `buf`, the
   * position and the size both become `pos + len` (even when that shrinks
   * the file), the inode record is saved, and the return value is `len`,
   * or -1 when the record could not be saved (the data is written anyway).
   */
  function Write(img: Image, info: InodeInfo, pos: nat, buf: seq<byte>): (r: WriteResult)
    ensures pos + |buf| > BlockSize ==> r == WriteResult(-1, img, info, pos)
    ensures pos + |buf| <= BlockSize ==>
              && r.pos == pos + |buf|
              && r.info == info.(payload := FileSize(pos + |buf|))
              && r.img.sb == img.sb
              && r.img.blocks == img.blocks[info.dataBlock := Data(Overwrite(BytesOf(img, info.dataBlock), pos, buf))]
              && (r.ret == |buf| || r.ret == -1)
              && (r.ret == |buf| <==> exists k :: 0 <= k < img.sb.inodesCount && StoreSlot(img, k).inodeNo == info.inodeNo)
              && (r.ret == |buf| ==> exists k :: 0 <= k < img.sb.inodesCount && StoreSlot(img, k).inodeNo == info.inodeNo
                                       && (forall j :: 0 <= j < k ==> StoreSlot(img, j).inodeNo != info.inodeNo)
                                       && StoreSlot(r.img, k) == r.info
                                       && forall j: nat :: j != k ==> StoreSlot(r.img, j) == StoreSlot(img, j))
              && (r.ret == -1 ==> r.img.store == img.store)
              && (|img.store| >= img.sb.inodesCount ==> |r.img.store| == |img.store|)
  {
    if pos + |buf| > BlockSize then WriteResult(-1, img, info, pos)
    else
      var data := Overwrite(BytesOf(img, info.dataBlock), pos, buf);
      var written := img.(blocks := img.blocks[info.dataBlock := Data(data)]);
      var newPos := pos + |buf|;
      var newInfo := info.(payload := FileSize(newPos));
      var saved := SaveInodeInfo(written, newInfo);
      assert forall j: nat :: StoreSlot(written, j) == StoreSlot(img, j);
      if saved.ret != 0 then WriteResult(-1, saved.img, newInfo, newPos)
      else WriteResult(|buf|, saved.img, newInfo, newPos)
  }

  /** Reading back from the same position after a write returns exactly the bytes written. */
  lemma ReadAfterWrite(img: Image, info: InodeInfo, pos: nat, buf: seq<byte>)
    requires pos + |buf| <= BlockSize
    ensures var w := Write(img, info, pos, buf);
            Read(w.img, w.info, pos, |buf|) == ReadResult(|buf|, buf, pos + |buf|)
  {
    var w := Write(img, info, pos, buf);
    var r := Read(w.img, w.info, pos, |buf|);
    assert BytesOf(w.img, info.dataBlock) == Overwrite(BytesOf(img, info.dataBlock), pos, buf);
    assert |r.bytes| == |buf|;
    forall i | 0 <= i < |buf| ensures r.bytes[i] == buf[i] {
      assert r.bytes[i] == ByteAt(BytesOf(w.img, info.dataBlock), pos + i);
    }
  }

  /** A write leaves every byte outside [pos, pos + len) of its block, and every other block, as they were. */
  lemma WriteFramesBytes(img: Image, info: InodeInfo, pos: nat, buf: seq<byte>, i: nat, b: nat)
    requires pos + |buf| <= BlockSize
    requires i < pos || i >= pos + |buf|
    requires b != info.dataBlock
    ensures var w := Write(img, info, pos, buf);
            && ByteAt(BytesOf(w.img, info.dataBlock), i) == ByteAt(BytesOf(img, info.dataBlock), i)
            && BytesOf(w.img, b) == BytesOf(img, b) && RecordsOf(w.img, b) == RecordsOf(img, b)
  {
  }

  /** A read past a write that shrank the file finds the new end of file. */
  lemma ReadAtNewEnd(img: Image, info: InodeInfo, pos: nat, buf: seq<byte>, len: nat)
    requires pos + |buf| <= BlockSize
    ensures var w := Write(img, info, pos, buf);
            Read(w.img, w.info, w.pos, len) == ReadResult(0, [], pos + |buf|)
  {
  }
}
