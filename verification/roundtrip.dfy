/** Adding a file and exporting it again: the entry `ryfs_add` writes
    leads `ryfs_export` to the chain it wrote, which reads back as the
    file. */
module RoundTrip {
  import opened Outcomes
  import opened Bytes
  import opened Layout
  import opened Bitmap
  import opened Directory
  import opened Chain
  import opened Files
  import opened Removal

  /** `Insert` that did not stop: the slot and first sector it took, and
      the chain written over the entry image. */
  lemma InsertUnfold(img: seq<byte>, bs: nat, name: seq<byte>, ext: seq<byte>, data: seq<byte>, r: seq<byte>)
    returns (e: nat, first: nat)
    requires |name| <= MaxNameLength
    requires Insert(img, bs, name, ext, data) == Outcome(Ok(()), r)
    ensures FindFreeEntry(img) == Some(e) && FindFreeSector(img, bs) == Some(first)
    ensures first < 65536 && FileSegments(|data|) < 65536
    ensures WriteChain(EntryImage(img, e, first, FileSegments(|data|), EntryKey(name, ext)), bs, data, 0, FileSegments(|data|)) == Outcome(Ok(()), r)
  {
    e := FindFreeEntry(img).value;
    first := FindFreeSector(img, bs).value;
  }

  /** The image after the three writes of the entry, at one offset. */
  lemma EntryAt(img: seq<byte>, e: nat, first: nat, n: nat, key: seq<byte>, o: int)
    requires first < 65536 && n < 65536
    ensures At(EntryImage(img, e, first, n, key), o) ==
      if e + 4 <= o < e + 4 + |key| then key[o - e - 4]
      else if e + 2 <= o < e + 4 then LE16(n)[o - e - 2]
      else if e <= o < e + 2 then LE16(first)[o - e]
      else At(img, o)
  {
    var a := Write(img, e, LE16(first));
    var b := Write(a, e + 2, LE16(n));
    WriteAt(img, e, LE16(first), o);
    WriteAt(a, e + 2, LE16(n), o);
    WriteAt(b, e + 4, key, o);
  }

  /** The three writes of the entry fill its slot and change nothing else. */
  lemma EntryFacts(img: seq<byte>, bs: nat, e: nat, first: nat, n: nat, key: seq<byte>, entry: seq<byte>)
    requires e + EntrySize <= DirectoryEnd
    requires first < 65536 && n < 65536 && |key| == 12
    requires entry == EntryImage(img, e, first, n, key)
    ensures |entry| >= |img| && |entry| >= e + EntrySize
    ensures forall o {:trigger At(entry, o)} :: !(e <= o < e + EntrySize) ==> At(entry, o) == At(img, o)
    ensures U16(entry, e) == first && U16(entry, e + 2) == n
    ensures Read(entry, e + 4, 12) == key
    ensures forall t {:trigger Used(entry, t)} :: Used(entry, t) == Used(img, t)
    ensures FindFreeSector(entry, bs) == FindFreeSector(img, bs)
    ensures Reserved(img, bs) ==> Reserved(entry, bs)
  {
    forall o | !(e <= o < e + EntrySize)
      ensures At(entry, o) == At(img, o)
    {
      EntryAt(img, e, first, n, key, o);
    }
    ReadIs(entry, e + 4, key);
    forall t: nat
      ensures Used(entry, t) == Used(img, t)
    {
      assert At(entry, BitmapOffset + t / 8) == At(img, BitmapOffset + t / 8);
    }
    FindFreeSectorFrame(entry, img, bs);
  }

  /** The chain written over the entry image, stated against the image
      before the entry was written: the two differ in the slot only. */
  lemma ChainOverEntry(img: seq<byte>, entry: seq<byte>, r: seq<byte>, bs: nat, data: seq<byte>, n: nat, first: nat)
    requires forall t {:trigger Used(entry, t)} :: Used(entry, t) == Used(img, t)
    requires ChainWritten(entry, r, bs, data, 0, n, first)
    ensures ReadChain(r, first, 0, n) == data
    ensures var c := ChainSectors(r, first, n);
      Fresh(img, r, bs, c) && Distinct(c) && SegmentsFormatted(r, c, |data| - PayloadSize * (n - 1))
    ensures forall o {:trigger At(r, o)} :: Kept(img, bs, o) ==> At(r, o) == At(entry, o)
    ensures |r| >= |entry|
  {
    var c := ChainSectors(r, first, n);
    assert data[PayloadSize * 0 ..] == data;
    forall j | 0 <= j < |c|
      ensures !Used(img, c[j])
    {
      assert Used(entry, c[j]) == Used(img, c[j]);
    }
    forall o | Kept(img, bs, o)
      ensures At(r, o) == At(entry, o)
    {
      assert Kept(entry, bs, o);
    }
  }

  /** Slot `j` reads the same in `r` as in `img` when its bytes do. */
  lemma SlotUnchanged(img: seq<byte>, r: seq<byte>, j: nat, key: seq<byte>)
    requires j < EntryCount && |img| >= DirectoryEnd && |r| >= DirectoryEnd
    requires forall o :: SlotOffset(j) + 4 <= o < SlotOffset(j) + EntrySize ==> At(r, o) == At(img, o)
    ensures Matches(r, j, key) == Matches(img, j, key)
  {
    ReadFrame(r, img, SlotOffset(j) + 4, 12);
  }

  /** The lookup finds the one slot that matches. */
  lemma OnlyMatch(r: seq<byte>, name: seq<byte>, ext: seq<byte>, i: nat)
    requires |name| <= MaxNameLength && i < EntryCount && |r| >= DirectoryEnd
    requires Matches(r, i, EntryKey(name, ext))
    requires forall j :: 0 <= j < EntryCount && j != i ==> !Matches(r, j, EntryKey(name, ext))
    ensures FindEntry(r, name, ext) == Some(SlotOffset(i))
  {
  }

  /** After the entry is written into the only slot matching its key, the
      lookup finds that slot. */
  lemma EntryFound(img: seq<byte>, entry: seq<byte>, r: seq<byte>, name: seq<byte>, ext: seq<byte>, e: nat)
    requires |name| <= MaxNameLength && |img| >= DirectoryEnd
    requires FindFreeEntry(img) == Some(e)
    requires forall j :: 0 <= j < EntryCount ==> !Matches(img, j, EntryKey(name, ext))
    requires |entry| >= |img| && |r| >= |entry|
    requires forall o :: !(e <= o < e + EntrySize) ==> At(entry, o) == At(img, o)
    requires forall o :: 0 <= o < BitmapOffset ==> At(r, o) == At(entry, o)
    requires Read(entry, e + 4, 12) == EntryKey(name, ext)
    ensures FindEntry(r, name, ext) == Some(e)
  {
    var key := EntryKey(name, ext);
    var i := SlotIndex(e);
    assert e == SlotOffset(i) && i < EntryCount;
    ReadFrame(r, entry, e + 4, 12);
    assert Matches(r, i, key);
    forall j | 0 <= j < EntryCount && j != i
      ensures !Matches(r, j, key)
    {
      assert SlotOffset(j) + EntrySize <= e || e + EntrySize <= SlotOffset(j);
      SlotUnchanged(img, r, j, key);
    }
    OnlyMatch(r, name, ext, i);
  }

  /** Inserting a file whose name no slot carries yet: the entry in the
      first free slot holds the first sector the allocator offered and the
      segment count; the chain from that sector reads back as the file and
      lies in sectors that were free, are now in use and are distinct,
      formatted with the trailing size on the last segment; nothing the
      bitmap marks used outside the slot changes; and exporting the name
      returns the file. */
  lemma InsertSpec(img: seq<byte>, bs: nat, name: seq<byte>, ext: seq<byte>, data: seq<byte>, r: seq<byte>)
    requires |name| <= MaxNameLength && |ext| == MaxExtLength
    requires |img| >= DirectoryEnd && Reserved(img, bs)
    requires forall j :: 0 <= j < EntryCount ==> !Matches(img, j, EntryKey(name, ext))
    requires Insert(img, bs, name, ext, data) == Outcome(Ok(()), r)
    ensures FindFreeEntry(img).Some? && FindFreeSector(img, bs).Some?
    ensures Inserted(img, r, bs, name, ext, data, FindFreeEntry(img).value, FindFreeSector(img, bs).value)
  {
    var e, first := InsertUnfold(img, bs, name, ext, data, r);
    InsertedSpec(img, bs, name, ext, data, r, e, first);
  }

  /** What `Insert` leaves when it took slot `e` and first sector `first`:
      the chain and the entry in place, and the file exported back. */
  ghost predicate Inserted(img: seq<byte>, r: seq<byte>, bs: nat, name: seq<byte>, ext: seq<byte>, data: seq<byte>, e: nat, first: nat)
    requires |name| <= MaxNameLength
  {
    && ChainPlaced(img, r, bs, data, first)
    && EntryPlaced(img, r, bs, name, ext, data, e, first)
    && Export(r, name, ext) == Ok(data)
  }

  /** The chain from `first` reads back as the file and lies in distinct,
      formatted sectors that were free in `img` and are used in `r`. */
  ghost predicate ChainPlaced(img: seq<byte>, r: seq<byte>, bs: nat, data: seq<byte>, first: nat)
  {
    var n := FileSegments(|data|);
    var c := ChainSectors(r, first, n);
    && ReadChain(r, first, 0, n) == data
    && Fresh(img, r, bs, c) && Distinct(c) && SegmentsFormatted(r, c, |data| - PayloadSize * (n - 1))
  }

  /** The lookup finds slot `e`, which holds the first sector and the
      segment count; every byte of `img` the bitmap marks used outside the
      slot is unchanged. */
  ghost predicate EntryPlaced(img: seq<byte>, r: seq<byte>, bs: nat, name: seq<byte>, ext: seq<byte>, data: seq<byte>, e: nat, first: nat)
    requires |name| <= MaxNameLength
  {
    && FindEntry(r, name, ext) == Some(e)
    && U16(r, e) == first && U16(r, e + 2) == FileSegments(|data|)
    && (forall o {:trigger At(r, o)} :: Kept(img, bs, o) && !(e <= o < e + EntrySize) ==> At(r, o) == At(img, o))
  }

  lemma InsertedSpec(img: seq<byte>, bs: nat, name: seq<byte>, ext: seq<byte>, data: seq<byte>, r: seq<byte>, e: nat, first: nat)
    requires |name| <= MaxNameLength && |ext| == MaxExtLength
    requires |img| >= DirectoryEnd && Reserved(img, bs)
    requires forall j :: 0 <= j < EntryCount ==> !Matches(img, j, EntryKey(name, ext))
    requires FindFreeEntry(img) == Some(e) && FindFreeSector(img, bs) == Some(first)
    requires first < 65536 && FileSegments(|data|) < 65536
    requires WriteChain(EntryImage(img, e, first, FileSegments(|data|), EntryKey(name, ext)), bs, data, 0, FileSegments(|data|)) == Outcome(Ok(()), r)
    ensures Inserted(img, r, bs, name, ext, data, e, first)
  {
    ChainPart(img, bs, name, ext, data, r, e, first);
    EntryPart(img, bs, name, ext, data, r, e, first);
    ExportPart(img, r, bs, name, ext, data, e, first);
  }

  /** With the chain and the entry in place, exporting the name reads the
      chain back. */
  lemma ExportPart(img: seq<byte>, r: seq<byte>, bs: nat, name: seq<byte>, ext: seq<byte>, data: seq<byte>, e: nat, first: nat)
    requires |name| <= MaxNameLength
    requires ChainPlaced(img, r, bs, data, first)
    requires EntryPlaced(img, r, bs, name, ext, data, e, first)
    ensures Export(r, name, ext) == Ok(data)
  {
    FoundOffset(r, name, ext, e);
    ExportFound(r, name, ext, first, FileSegments(|data|));
  }

  /** The offset the lookup returns, as a plain number. */
  lemma FoundOffset(r: seq<byte>, name: seq<byte>, ext: seq<byte>, e: nat)
    requires |name| <= MaxNameLength
    requires FindEntry(r, name, ext) == Some(e)
    ensures FindEntry(r, name, ext).value == e
  {
  }

  /** `export` of a name it finds reads the chain the found entry points to. */
  lemma ExportFound(img: seq<byte>, name: seq<byte>, ext: seq<byte>, first: nat, n: nat)
    requires |name| <= MaxNameLength
    requires FindEntry(img, name, ext).Some?
    requires U16(img, FindEntry(img, name, ext).value) == first && U16(img, FindEntry(img, name, ext).value + 2) == n
    ensures Export(img, name, ext) == Ok(ReadChain(img, first, 0, n))
  {
  }

  lemma ChainPart(img: seq<byte>, bs: nat, name: seq<byte>, ext: seq<byte>, data: seq<byte>, r: seq<byte>, e: nat, first: nat)
    requires |name| <= MaxNameLength && |ext| == MaxExtLength
    requires |img| >= DirectoryEnd && Reserved(img, bs)
    requires forall j :: 0 <= j < EntryCount ==> !Matches(img, j, EntryKey(name, ext))
    requires FindFreeEntry(img) == Some(e) && FindFreeSector(img, bs) == Some(first)
    requires first < 65536 && FileSegments(|data|) < 65536
    requires WriteChain(EntryImage(img, e, first, FileSegments(|data|), EntryKey(name, ext)), bs, data, 0, FileSegments(|data|)) == Outcome(Ok(()), r)
    ensures ChainPlaced(img, r, bs, data, first)
  {
    var n := FileSegments(|data|);
    var entry := EntryImage(img, e, first, n, EntryKey(name, ext));
    EntryFacts(img, bs, e, first, n, EntryKey(name, ext), entry);
    InsertedChain(img, entry, r, bs, data, n, first);
  }

  lemma EntryPart(img: seq<byte>, bs: nat, name: seq<byte>, ext: seq<byte>, data: seq<byte>, r: seq<byte>, e: nat, first: nat)
    requires |name| <= MaxNameLength && |ext| == MaxExtLength
    requires |img| >= DirectoryEnd && Reserved(img, bs)
    requires forall j :: 0 <= j < EntryCount ==> !Matches(img, j, EntryKey(name, ext))
    requires FindFreeEntry(img) == Some(e) && FindFreeSector(img, bs) == Some(first)
    requires first < 65536 && FileSegments(|data|) < 65536
    requires WriteChain(EntryImage(img, e, first, FileSegments(|data|), EntryKey(name, ext)), bs, data, 0, FileSegments(|data|)) == Outcome(Ok(()), r)
    ensures EntryPlaced(img, r, bs, name, ext, data, e, first)
  {
    var n := FileSegments(|data|);
    var entry := EntryImage(img, e, first, n, EntryKey(name, ext));
    EntryFacts(img, bs, e, first, n, EntryKey(name, ext), entry);
    InsertedFrame(img, entry, r, bs, data, n, first, e);
    EntryFound(img, entry, r, name, ext, e);
  }

  /** The chain `Insert` writes over the entry image reads back as the
      file and lies in sectors that were free before the entry was
      written. */
  lemma InsertedChain(img: seq<byte>, entry: seq<byte>, r: seq<byte>, bs: nat, data: seq<byte>, n: nat, first: nat)
    requires n == FileSegments(|data|)
    requires Reserved(entry, bs) && FindFreeSector(entry, bs) == Some(first)
    requires forall t {:trigger Used(entry, t)} :: Used(entry, t) == Used(img, t)
    requires WriteChain(entry, bs, data, 0, n) == Outcome(Ok(()), r)
    ensures ReadChain(r, first, 0, n) == data
    ensures var c := ChainSectors(r, first, n);
      Fresh(img, r, bs, c) && Distinct(c) && SegmentsFormatted(r, c, |data| - PayloadSize * (n - 1))
  {
    WriteChainSpec(entry, bs, data, 0, n, r);
    ChainOverEntry(img, entry, r, bs, data, n, first);
  }

  /** Writing the chain over the entry image keeps the entry and every
      byte of `img` the bitmap marks used outside the slot. */
  lemma InsertedFrame(img: seq<byte>, entry: seq<byte>, r: seq<byte>, bs: nat, data: seq<byte>, n: nat, first: nat, e: nat)
    requires n == FileSegments(|data|) && e + EntrySize <= DirectoryEnd
    requires Reserved(entry, bs) && FindFreeSector(entry, bs) == Some(first)
    requires forall o {:trigger At(entry, o)} :: !(e <= o < e + EntrySize) ==> At(entry, o) == At(img, o)
    requires forall t {:trigger Used(entry, t)} :: Used(entry, t) == Used(img, t)
    requires WriteChain(entry, bs, data, 0, n) == Outcome(Ok(()), r)
    ensures forall o {:trigger At(r, o)} :: Kept(img, bs, o) && !(e <= o < e + EntrySize) ==> At(r, o) == At(img, o)
    ensures forall o {:trigger At(r, o)} :: 0 <= o < BitmapOffset ==> At(r, o) == At(entry, o)
    ensures |r| >= |entry|
    ensures U16(r, e) == U16(entry, e) && U16(r, e + 2) == U16(entry, e + 2)
  {
    WriteChainSpec(entry, bs, data, 0, n, r);
    ChainOverEntry(img, entry, r, bs, data, n, first);
    assert At(r, e) == At(entry, e) && At(r, e + 1) == At(entry, e + 1);
    assert At(r, e + 2) == At(entry, e + 2) && At(r, e + 3) == At(entry, e + 3);
  }

  /** At most one slot carries `key`. */
  ghost predicate UniqueKey(img: seq<byte>, key: seq<byte>)
  {
    forall i, j :: 0 <= i < EntryCount && 0 <= j < EntryCount && Matches(img, i, key) && Matches(img, j, key) ==> i == j
  }

  /** The file found at `e` has its first sector and its chain past the
      reserved sectors and in the range `ryfs_remove` frees correctly. */
  ghost predicate ReplaceableAt(img: seq<byte>, e: nat, bs: nat)
  {
    && RemovableAt(img, e)
    && bs + 2 <= U16(img, e)
    && Spares(ChainSectors(img, U16(img, e), U16(img, e + 2)), bs)
  }

  /** No sector of `c` is a reserved one. */
  ghost predicate Spares(c: seq<nat>, bs: nat)
  {
    forall j :: 0 <= j < |c| ==> bs + 2 <= c[j]
  }

  /** Removing the one file that carries a name leaves no slot carrying
      it, wherever its chain lies. */
  lemma RemovedName(img: seq<byte>, name: seq<byte>, ext: seq<byte>, e: nat)
    requires |name| <= MaxNameLength && forall k :: 0 <= k < |name| ==> name[k] != 0
    requires |img| >= DirectoryEnd
    requires UniqueKey(img, EntryKey(name, ext))
    requires FindEntry(img, name, ext) == Some(e)
    ensures forall j :: 0 <= j < EntryCount ==> !Matches(Remove(img, name, ext).image, j, EntryKey(name, ext))
  {
    var key := EntryKey(name, ext);
    var i := EntrySlot(img, name, ext).value;
    assert e == SlotOffset(i);
    assert key[0] != 0;
    var cleared := Remove(img, name, ext).image;
    assert cleared == Erase(img, e);
    EraseBelowBitmap(img, e);
    ZeroedSlotGone(img, cleared, i, key);
  }

  /** Zeroing the slot of the only entry with `key` leaves no entry with it. */
  lemma ZeroedSlotGone(img: seq<byte>, cleared: seq<byte>, i: nat, key: seq<byte>)
    requires i < EntryCount && |img| >= DirectoryEnd && |key| == 12 && key[0] != 0
    requires UniqueKey(img, key) && Matches(img, i, key)
    requires |cleared| >= |img|
    requires forall o :: 0 <= o < BitmapOffset ==> At(cleared, o) == if SlotOffset(i) <= o < SlotOffset(i) + EntrySize then 0 else At(img, o)
    ensures forall j :: 0 <= j < EntryCount ==> !Matches(cleared, j, key)
  {
    assert Read(cleared, SlotOffset(i) + 4, 12)[0] == At(cleared, SlotOffset(i) + 4) == 0;
    assert !Matches(cleared, i, key);
    forall j | 0 <= j < EntryCount && j != i
      ensures !Matches(cleared, j, key)
    {
      assert SlotOffset(j) + EntrySize <= SlotOffset(i) || SlotOffset(i) + EntrySize <= SlotOffset(j);
      SlotUnchanged(img, cleared, j, key);
    }
  }

  /** Removing a file whose chain spares the reserved sectors keeps them
      marked. */
  lemma RemovedReserved(img: seq<byte>, bs: nat, name: seq<byte>, ext: seq<byte>, e: nat)
    requires |name| <= MaxNameLength
    requires bs + 2 <= SectorsPerBitmapSector
    requires Reserved(img, bs)
    requires FindEntry(img, name, ext) == Some(e)
    requires ReplaceableAt(img, e, bs)
    ensures |Remove(img, name, ext).image| >= |img| && Reserved(Remove(img, name, ext).image, bs)
  {
    var first := U16(img, e);
    var c := ChainSectors(img, first, U16(img, e + 2));
    assert Spares(c, bs) && bs + 2 <= first;
    RemoveSpec(img, name, ext, e);
    KeepsReserved(img, Remove(img, name, ext).image, bs, e, first, c);
  }

  /** Clearing the bits of sectors past the reserved ones keeps those
      marked. */
  lemma KeepsReserved(img: seq<byte>, r: seq<byte>, bs: nat, e: nat, first: nat, c: seq<nat>)
    requires bs + 2 <= SectorsPerBitmapSector && bs + 2 <= first && Spares(c, bs)
    requires Reserved(img, bs)
    requires Removed(img, r, e, first, c)
    ensures |r| >= |img| && Reserved(r, bs)
  {
    forall t | 0 <= t < bs + 2
      ensures Used(r, t)
    {
      assert t !in c;
    }
  }

  /** Adding a file and exporting it returns the file. The name must not
      be on more than one slot already; if it is on one, that file's chain
      must lie where `ryfs_remove` frees exactly its sectors and must spare
      the reserved ones. */
  lemma AddExport(img: seq<byte>, bs: nat, name: seq<byte>, ext: seq<byte>, data: seq<byte>, r: seq<byte>)
    requires |name| <= MaxNameLength && |ext| == MaxExtLength
    requires forall k :: 0 <= k < |name| ==> name[k] != 0
    requires bs + 2 <= SectorsPerBitmapSector
    requires |img| >= DirectoryEnd && Reserved(img, bs)
    requires UniqueKey(img, EntryKey(name, ext))
    requires FindEntry(img, name, ext).Some? ==> ReplaceableAt(img, FindEntry(img, name, ext).value, bs)
    requires Add(img, bs, name, ext, data) == Outcome(Ok(()), r)
    ensures Export(r, name, ext) == Ok(data)
  {
    var cleared := if FindEntry(img, name, ext).Some? then Remove(img, name, ext).image else img;
    if FindEntry(img, name, ext).Some? {
      var e := FindEntry(img, name, ext).value;
      RemovedName(img, name, ext, e);
      RemovedReserved(img, bs, name, ext, e);
    }
    InsertSpec(cleared, bs, name, ext, data, r);
  }

  /** Adding a file changes nothing in front of the directory: the boot
      sector and the header with its label stay as they were. */
  lemma AddKeepsHeader(img: seq<byte>, bs: nat, name: seq<byte>, ext: seq<byte>, data: seq<byte>, r: seq<byte>)
    requires |name| <= MaxNameLength && |ext| == MaxExtLength
    requires forall k :: 0 <= k < |name| ==> name[k] != 0
    requires bs + 2 <= SectorsPerBitmapSector
    requires |img| >= DirectoryEnd && Reserved(img, bs)
    requires UniqueKey(img, EntryKey(name, ext))
    requires FindEntry(img, name, ext).Some? ==> ReplaceableAt(img, FindEntry(img, name, ext).value, bs)
    requires Add(img, bs, name, ext, data) == Outcome(Ok(()), r)
    ensures |r| >= |img|
    ensures forall o :: 0 <= o < DirectoryOffset ==> At(r, o) == At(img, o)
  {
    var cleared := if FindEntry(img, name, ext).Some? then Remove(img, name, ext).image else img;
    if FindEntry(img, name, ext).Some? {
      var e := FindEntry(img, name, ext).value;
      RemoveKeepsHeader(img, name, ext, e);
      RemovedName(img, name, ext, e);
      RemovedReserved(img, bs, name, ext, e);
    }
    InsertKeepsHeader(cleared, bs, name, ext, data, r);
  }

  /** Removing a file changes nothing in front of its entry, whatever its
      chain: with a three-byte extension nothing in front of the
      directory. */
  lemma RemoveKeepsHeader(img: seq<byte>, name: seq<byte>, ext: seq<byte>, e: nat)
    requires |name| <= MaxNameLength
    requires FindEntry(img, name, ext) == Some(e)
    ensures |Remove(img, name, ext).image| >= |img|
    ensures forall o :: 0 <= o < e ==> At(Remove(img, name, ext).image, o) == At(img, o)
    ensures |ext| == MaxExtLength ==> forall o :: 0 <= o < DirectoryOffset ==> At(Remove(img, name, ext).image, o) == At(img, o)
  {
    assert e + MaxExtLength == SlotOffset(EntrySlot(img, name, ext).value) + |ext|;
    assert Remove(img, name, ext).image == Erase(img, e);
    EraseBelowBitmap(img, e);
  }

  /** Inserting a file writes only a slot, the bitmap and free sectors. */
  lemma InsertKeepsHeader(img: seq<byte>, bs: nat, name: seq<byte>, ext: seq<byte>, data: seq<byte>, r: seq<byte>)
    requires |name| <= MaxNameLength && |ext| == MaxExtLength
    requires |img| >= DirectoryEnd && Reserved(img, bs)
    requires forall j :: 0 <= j < EntryCount ==> !Matches(img, j, EntryKey(name, ext))
    requires Insert(img, bs, name, ext, data) == Outcome(Ok(()), r)
    ensures |r| >= |img|
    ensures forall o :: 0 <= o < DirectoryOffset ==> At(r, o) == At(img, o)
  {
    InsertSpec(img, bs, name, ext, data, r);
    forall o | 0 <= o < DirectoryOffset
      ensures At(r, o) == At(img, o)
    {
      assert Kept(img, bs, o);
    }
  }
}
