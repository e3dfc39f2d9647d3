/** The file operations on a formatted image: `ryfs_add`, `ryfs_remove` and
    `ryfs_export` (ryfs.py:51-176). Names and extensions are the bytes the
    tool writes into the directory; `bs` is the bitmap sector count the
    tool read from byte 512 before the operation started. */
module Files {
  import opened Outcomes
  import opened Bytes
  import opened Layout
  import opened Bitmap
  import opened Directory
  import opened Chain

  /** The part of `ryfs_add` after the old file is gone (ryfs.py:60-112):
      take the first free slot and the first free sector, then place the
      file there. */
  function Insert(img: seq<byte>, bs: nat, name: seq<byte>, ext: seq<byte>, data: seq<byte>): (o: Outcome<()>)
    requires |name| <= MaxNameLength
    ensures o.result == Err(DirectoryFull) <==> forall j :: 0 <= j < EntryCount ==> !IsFree(img, j)
    ensures o.result == Err(StorageExhausted) <==>
      (exists j :: 0 <= j < EntryCount && IsFree(img, j)) && forall t :: 0 <= t < SectorsPerBitmapSector * bs ==> Used(img, t)
    ensures o.result == Err(DirectoryFull) || o.result == Err(StorageExhausted) ==> o.image == img
    ensures o.result == Ok(()) || o.result == Err(DirectoryFull) || o.result == Err(StorageExhausted) || o.result == Err(Crashed)
    ensures |o.image| >= |img|
  {
    match FindFreeEntry(img)
    case None => Outcome(Err(DirectoryFull), img)
    case Some(e) =>
      match FindFreeSector(img, bs)
      case None => Outcome(Err(StorageExhausted), img)
      case Some(first) => Place(img, bs, e, first, name, ext, data)
  }

  /** Slot `e` and sector `first` taken (ryfs.py:75-112): write the entry's
      sector, segment count and padded name, then the chain. A field that
      does not fit in 16 bits makes `pack('<H', ...)` raise. */
  function Place(img: seq<byte>, bs: nat, e: nat, first: nat, name: seq<byte>, ext: seq<byte>, data: seq<byte>): (o: Outcome<()>)
    requires |name| <= MaxNameLength
    ensures o.result == Ok(()) || o.result == Err(Crashed)
    ensures |o.image| >= |img|
  {
    var n := FileSegments(|data|);
    if first >= 65536 then Outcome(Err(Crashed), img)
    else if n >= 65536 then Outcome(Err(Crashed), Write(img, e, LE16(first)))
    else WriteChain(EntryImage(img, e, first, n, EntryKey(name, ext)), bs, data, 0, n)
  }

  /** The three writes of a directory entry at `e`: first sector, segment
      count, then the 12-byte name field. */
  function EntryImage(img: seq<byte>, e: nat, first: nat, n: nat, key: seq<byte>): (r: seq<byte>)
    requires first < 65536 && n < 65536
    ensures |r| >= |img|
    ensures U16(r, e) == first && U16(r, e + 2) == n
    ensures |r| >= e + 4 + |key| && forall k :: 0 <= k < |key| ==> r[e + 4 + k] == key[k]
  {
    Write(Write(Write(img, e, LE16(first)), e + 2, LE16(n)), e + 4, key)
  }

  /** `ryfs_add()` (ryfs.py:51-112): an existing file of the same name is
      removed first. */
  function Add(img: seq<byte>, bs: nat, name: seq<byte>, ext: seq<byte>, data: seq<byte>): (o: Outcome<()>)
    requires |name| <= MaxNameLength
    ensures o.result == Ok(()) || o.result == Err(DirectoryFull) || o.result == Err(StorageExhausted) || o.result == Err(Crashed)
  {
    Insert(Cleared(img, name, ext), bs, name, ext, data)
  }

  /** The image `ryfs_add()` places the file on (ryfs.py:56-58): with any
      file of the same name removed. */
  function Cleared(img: seq<byte>, name: seq<byte>, ext: seq<byte>): (r: seq<byte>)
    requires |name| <= MaxNameLength
    ensures FindEntry(img, name, ext).None? ==> r == img
  {
    if FindEntry(img, name, ext).Some? then Remove(img, name, ext).image else img
  }

  /** `ryfs_remove()` (ryfs.py:117-142): free the entry's first sector, walk
      the chain from it freeing each sector, so the first is freed twice,
      then zero the slot. */
  function Remove(img: seq<byte>, name: seq<byte>, ext: seq<byte>): (o: Outcome<()>)
    requires |name| <= MaxNameLength
    ensures o.result.Err? <==> forall j :: 0 <= j < EntryCount ==> !Matches(img, j, EntryKey(name, ext))
    ensures o.result.Err? ==> o == Outcome(Err(FileNotFound), img)
  {
    match FindEntry(img, name, ext)
    case None => Outcome(Err(FileNotFound), img)
    case Some(e) => Outcome(Ok(()), Erase(img, e))
  }

  /** What `ryfs_remove()` does once it found the entry at `e`. The segment
      count and the first link are read back from the entry after the first
      sector is freed. */
  function Erase(img: seq<byte>, e: nat): (r: seq<byte>)
    ensures |r| >= |img|
    ensures |r| >= e + EntrySize && forall o :: e <= o < e + EntrySize ==> r[o] == 0
  {
    var freed := MarkFree(img, U16(img, e));
    var count := U16(freed, e + 2);
    var first := U16(freed, e);
    Write(FreeChain(freed, first, count), e, Zeros(EntrySize))
  }

  /** `ryfs_export()` (ryfs.py:145-176): the bytes written to the export
      file. The image is only read. */
  function Export(img: seq<byte>, name: seq<byte>, ext: seq<byte>): (r: Result<seq<byte>>)
    requires |name| <= MaxNameLength
    ensures r.Err? <==> forall j :: 0 <= j < EntryCount ==> !Matches(img, j, EntryKey(name, ext))
    ensures r.Err? ==> r == Err(FileNotFound)
  {
    match FindEntry(img, name, ext)
    case None => Err(FileNotFound)
    case Some(e) => Ok(ReadChain(img, U16(img, e), 0, U16(img, e + 2)))
  }
}
