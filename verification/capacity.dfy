/** When the tool's `add` command succeeds: the loop of `ryfs_add` runs to
    the end exactly when the bitmap has a free sector for each segment,
    and the directory takes the file exactly when it also has a free slot. */
module Capacity {
  import opened Outcomes
  import opened Bytes
  import opened Layout
  import opened Bitmap
  import opened Directory
  import opened Chain
  import opened Files
  import opened Removal
  import opened RoundTrip

  /** The loop of `ryfs_add` runs to the end from iteration `k` only when
      the bitmap has a free sector for each remaining iteration. */
  lemma WriteChainNeeds(img: seq<byte>, bs: nat, data: seq<byte>, k: nat, n: nat)
    requires n == FileSegments(|data|) && k < n
    requires Reserved(img, bs)
    requires WriteChain(img, bs, data, k, n).result == Ok(())
    ensures FreeCount(img, SectorsPerBitmapSector * bs) >= n - k
  {
    var cur, j := img, k;
    while j < n - 1
      invariant k <= j <= n - 1
      invariant Reserved(cur, bs)
      invariant WriteChain(cur, bs, data, j, n).result == Ok(())
      invariant FreeCount(img, SectorsPerBitmapSector * bs) == FreeCount(cur, SectorsPerBitmapSector * bs) + (j - k)
      decreases n - j
    {
      cur := OkStep(cur, bs, data, j, n);
      j := j + 1;
    }
    OkFindsOne(cur, bs, data, j, n);
  }

  /** An iteration of a loop that runs to the end finds a free sector. */
  lemma OkFindsOne(img: seq<byte>, bs: nat, data: seq<byte>, k: nat, n: nat)
    requires n == FileSegments(|data|) && k < n
    requires WriteChain(img, bs, data, k, n).result == Ok(())
    ensures FreeCount(img, SectorsPerBitmapSector * bs) >= 1
  {
    var cur := OkTakes(img, bs, data, k, n);
    FindsFreeSector(img, bs);
  }

  /** A non-final iteration of a loop that runs to the end takes one free
      sector and leaves a loop that runs to the end. */
  lemma OkStep(img: seq<byte>, bs: nat, data: seq<byte>, k: nat, n: nat) returns (seg: seq<byte>)
    requires n == FileSegments(|data|) && k < n - 1
    requires Reserved(img, bs)
    requires WriteChain(img, bs, data, k, n).result == Ok(())
    ensures Reserved(seg, bs)
    ensures FreeCount(seg, SectorsPerBitmapSector * bs) + 1 == FreeCount(img, SectorsPerBitmapSector * bs)
    ensures WriteChain(seg, bs, data, k + 1, n).result == Ok(())
  {
    var cur := OkTakes(img, bs, data, k, n);
    seg := Step(img, bs, data, k, n);
  }

  /** The sectors an iteration of a loop that runs to the end takes. */
  lemma OkTakes(img: seq<byte>, bs: nat, data: seq<byte>, k: nat, n: nat) returns (cur: nat)
    requires n == FileSegments(|data|) && k < n
    requires WriteChain(img, bs, data, k, n).result == Ok(())
    ensures FindFreeSector(img, bs) == Some(cur)
    ensures k != n - 1 ==> FindFreeSector(MarkUsed(img, cur), bs).Some?
    ensures k != n - 1 ==> FindFreeSector(MarkUsed(img, cur), bs).value < 65536
  {
    assert WriteChain(img, bs, data, k, n) == Iteration(img, bs, data, k, n);
    cur := FindFreeSector(img, bs).value;
  }

  /** A non-final iteration that finds both its sectors leaves the reserved
      sectors in use, one free sector fewer, and the rest of the loop to
      run on the image it wrote. */
  lemma Step(img: seq<byte>, bs: nat, data: seq<byte>, k: nat, n: nat) returns (seg: seq<byte>)
    requires n == FileSegments(|data|) && k < n - 1
    requires Reserved(img, bs)
    requires FindFreeSector(img, bs).Some?
    requires FindFreeSector(MarkUsed(img, FindFreeSector(img, bs).value), bs).Some?
    requires FindFreeSector(MarkUsed(img, FindFreeSector(img, bs).value), bs).value < 65536
    ensures Reserved(seg, bs)
    ensures FreeCount(seg, SectorsPerBitmapSector * bs) + 1 == FreeCount(img, SectorsPerBitmapSector * bs)
    ensures WriteChain(img, bs, data, k, n).result == WriteChain(seg, bs, data, k + 1, n).result
  {
    var cur := FindFreeSector(img, bs).value;
    var next := FindFreeSector(MarkUsed(img, cur), bs).value;
    seg := WriteSegment(MarkUsed(img, cur), cur, next, 0, Chunk(data, k));
    StepCounts(img, bs, cur, next, Chunk(data, k), seg);
    assert WriteChain(img, bs, data, k, n) == Iteration(img, bs, data, k, n);
  }

  /** One iteration leaves the reserved sectors in use and one free sector
      fewer. */
  lemma StepCounts(img: seq<byte>, bs: nat, cur: nat, next: nat, chunk: seq<byte>, seg: seq<byte>)
    requires Reserved(img, bs)
    requires FindFreeSector(img, bs) == Some(cur)
    requires next < 65536 && |chunk| <= PayloadSize
    requires seg == WriteSegment(MarkUsed(img, cur), cur, next, 0, chunk)
    ensures Reserved(seg, bs)
    ensures FreeCount(seg, SectorsPerBitmapSector * bs) + 1 == FreeCount(img, SectorsPerBitmapSector * bs)
  {
    Allocated(img, bs, cur);
    StepUsed(img, bs, cur, next, 0, chunk, seg);
    StepPreserves(img, bs, cur, next, 0, chunk, seg);
    FreeCountTake(img, seg, SectorsPerBitmapSector * bs, cur);
  }

  /** With two free sectors, the allocator offers a second one once the
      first is marked used, and on a bitmap of at most 16 sectors its number
      fits a 16-bit link. */
  lemma SecondSector(img: seq<byte>, bs: nat)
    requires Reserved(img, bs) && bs <= MaxBitmapSectors
    requires FreeCount(img, SectorsPerBitmapSector * bs) >= 2
    ensures FindFreeSector(img, bs).Some?
    ensures FindFreeSector(MarkUsed(img, FindFreeSector(img, bs).value), bs).Some?
    ensures FindFreeSector(MarkUsed(img, FindFreeSector(img, bs).value), bs).value < 65536
  {
    FindsFreeSector(img, bs);
    var cur := FindFreeSector(img, bs).value;
    var marked := MarkUsed(img, cur);
    FreeCountTake(img, marked, SectorsPerBitmapSector * bs, cur);
    FindsFreeSector(marked, bs);
  }

  /** With two free sectors a non-final iteration takes one of them and
      leaves the rest of the loop to run on the image it wrote. */
  lemma TakeStep(img: seq<byte>, bs: nat, data: seq<byte>, k: nat, n: nat) returns (seg: seq<byte>)
    requires n == FileSegments(|data|) && k < n - 1
    requires Reserved(img, bs) && bs <= MaxBitmapSectors
    requires FreeCount(img, SectorsPerBitmapSector * bs) >= 2
    ensures Reserved(seg, bs)
    ensures FreeCount(seg, SectorsPerBitmapSector * bs) + 1 == FreeCount(img, SectorsPerBitmapSector * bs)
    ensures WriteChain(seg, bs, data, k + 1, n).result == Ok(()) ==> WriteChain(img, bs, data, k, n).result == Ok(())
  {
    SecondSector(img, bs);
    seg := Step(img, bs, data, k, n);
  }

  /** The final iteration runs to the end once there is a free sector. */
  lemma LastIteration(img: seq<byte>, bs: nat, data: seq<byte>, k: nat, n: nat)
    requires n == FileSegments(|data|) && k == n - 1
    requires FreeCount(img, SectorsPerBitmapSector * bs) >= 1
    ensures WriteChain(img, bs, data, k, n).result == Ok(())
  {
    FindsFreeSector(img, bs);
    assert WriteChain(img, bs, data, k, n) == Iteration(img, bs, data, k, n)
      == IterationAt(img, bs, data, k, n, FindFreeSector(img, bs).value);
  }

  /** With a free sector for each remaining iteration, and a bitmap too
      small to offer a sector number that does not fit in 16 bits, the loop
      of `ryfs_add` runs to the end from iteration `k`. */
  lemma WriteChainSucceeds(img: seq<byte>, bs: nat, data: seq<byte>, k: nat, n: nat)
    requires n == FileSegments(|data|) && k < n
    requires Reserved(img, bs) && bs <= MaxBitmapSectors
    requires FreeCount(img, SectorsPerBitmapSector * bs) >= n - k
    ensures WriteChain(img, bs, data, k, n).result == Ok(())
  {
    var cur, j := img, k;
    while j < n - 1
      invariant k <= j <= n - 1
      invariant Reserved(cur, bs)
      invariant FreeCount(cur, SectorsPerBitmapSector * bs) >= n - j
      invariant WriteChain(cur, bs, data, j, n).result == Ok(()) ==> WriteChain(img, bs, data, k, n).result == Ok(())
      decreases n - j
    {
      cur := TakeStep(cur, bs, data, j, n);
      j := j + 1;
    }
    LastIteration(cur, bs, data, j, n);
  }

  /** The three writes of an entry in a slot lie in front of the bitmap, so
      the bitmap reads the same after them. */
  lemma EntryKeepsBitmap(img: seq<byte>, bs: nat, e: nat, first: nat, n: nat, key: seq<byte>)
    requires e + EntrySize <= DirectoryEnd && |key| <= 12
    requires first < 65536 && n < 65536
    ensures FreeCount(EntryImage(img, e, first, n, key), SectorsPerBitmapSector * bs) == FreeCount(img, SectorsPerBitmapSector * bs)
    ensures Reserved(img, bs) ==> Reserved(EntryImage(img, e, first, n, key), bs)
  {
    var entry := EntryImage(img, e, first, n, key);
    forall t: nat
      ensures Used(entry, t) == Used(img, t)
    {
      EntryAt(img, e, first, n, key, BitmapOffset + t / 8);
    }
    FreeCountMono(img, entry, SectorsPerBitmapSector * bs);
    FreeCountMono(entry, img, SectorsPerBitmapSector * bs);
  }

  /** Once slot `e` and sector `first` are taken, the file is placed exactly
      when its segment count fits 16 bits, `first` does, and the bitmap has
      a free sector per segment. */
  lemma PlaceCompletes(img: seq<byte>, bs: nat, e: nat, first: nat, name: seq<byte>, ext: seq<byte>, data: seq<byte>)
    requires |name| <= MaxNameLength && |ext| <= MaxExtLength
    requires e + EntrySize <= DirectoryEnd
    requires Reserved(img, bs)
    ensures Place(img, bs, e, first, name, ext, data).result == Ok(()) ==>
      first < 65536 && FileSegments(|data|) < 65536 && FreeCount(img, SectorsPerBitmapSector * bs) >= FileSegments(|data|)
    ensures bs <= MaxBitmapSectors && first < 65536 && FileSegments(|data|) < 65536 && FreeCount(img, SectorsPerBitmapSector * bs) >= FileSegments(|data|) ==>
      Place(img, bs, e, first, name, ext, data).result == Ok(())
  {
    var n := FileSegments(|data|);
    if first < 65536 && n < 65536 {
      var key := EntryKey(name, ext);
      var entry := EntryImage(img, e, first, n, key);
      EntryKeepsBitmap(img, bs, e, first, n, key);
      assert Place(img, bs, e, first, name, ext, data) == WriteChain(entry, bs, data, 0, n);
      if WriteChain(entry, bs, data, 0, n).result == Ok(()) {
        WriteChainNeeds(entry, bs, data, 0, n);
      }
      if bs <= MaxBitmapSectors && FreeCount(img, SectorsPerBitmapSector * bs) >= n {
        WriteChainSucceeds(entry, bs, data, 0, n);
      }
    }
  }

  /** `Insert` places the file exactly when the directory has a free slot,
      the segment count fits 16 bits and the bitmap has a free sector per
      segment; the last condition implies the allocator's first sector fits
      16 bits when the bitmap has at most 16 sectors. */
  lemma InsertCompletes(img: seq<byte>, bs: nat, name: seq<byte>, ext: seq<byte>, data: seq<byte>)
    requires |name| <= MaxNameLength && |ext| <= MaxExtLength
    requires Reserved(img, bs)
    ensures Insert(img, bs, name, ext, data).result == Ok(()) ==>
      && (exists j :: 0 <= j < EntryCount && IsFree(img, j))
      && FileSegments(|data|) < 65536
      && FreeCount(img, SectorsPerBitmapSector * bs) >= FileSegments(|data|)
    ensures bs <= MaxBitmapSectors ==>
      && (exists j :: 0 <= j < EntryCount && IsFree(img, j))
      && FileSegments(|data|) < 65536
      && FreeCount(img, SectorsPerBitmapSector * bs) >= FileSegments(|data|)
      ==> Insert(img, bs, name, ext, data).result == Ok(())
  {
    FindsFreeSector(img, bs);
    if FindFreeEntry(img).Some? && FindFreeSector(img, bs).Some? {
      var e := FindFreeEntry(img).value;
      var first := FindFreeSector(img, bs).value;
      assert e + EntrySize <= DirectoryEnd;
      assert Insert(img, bs, name, ext, data) == Place(img, bs, e, first, name, ext, data);
      PlaceCompletes(img, bs, e, first, name, ext, data);
    }
  }

  /** Removing the old file before a replacement leaves its slot free,
      keeps the reserved sectors in use and frees sectors without taking
      any. */
  lemma ClearedFacts(img: seq<byte>, bs: nat, name: seq<byte>, ext: seq<byte>)
    requires |name| <= MaxNameLength
    requires |img| >= DirectoryEnd
    requires Reserved(img, bs)
    requires FindEntry(img, name, ext).Some? ==> ReplaceableAt(img, FindEntry(img, name, ext).value, bs)
    ensures Reserved(Cleared(img, name, ext), bs)
    ensures FreeCount(Cleared(img, name, ext), SectorsPerBitmapSector * bs) >= FreeCount(img, SectorsPerBitmapSector * bs)
    ensures FindEntry(img, name, ext).Some? ==> exists j :: 0 <= j < EntryCount && IsFree(Cleared(img, name, ext), j)
  {
    if FindEntry(img, name, ext).Some? {
      var e := FindEntry(img, name, ext).value;
      var i := EntrySlot(img, name, ext).value;
      var first := U16(img, e);
      RemoveSpec(img, name, ext, e);
      RemovedReserved(img, bs, name, ext, e);
      RemovedFrees(img, Remove(img, name, ext).image, bs, e, first, ChainSectors(img, first, U16(img, e + 2)));
      FreeOpened(img, Remove(img, name, ext).image, e, i, |ext|);
    }
  }

  /** Removing a file only clears bitmap bits, so it leaves at least as
      many sectors free. */
  lemma RemovedFrees(img: seq<byte>, r: seq<byte>, bs: nat, e: nat, first: nat, c: seq<nat>)
    requires e + EntrySize <= DirectoryEnd
    requires Removed(img, r, e, first, c)
    ensures FreeCount(r, SectorsPerBitmapSector * bs) >= FreeCount(img, SectorsPerBitmapSector * bs)
  {
    forall t: nat | t < SectorsPerBitmapSector * bs && Used(r, t)
      ensures Used(img, t)
    {
      if t >= SectorsPerBitmapSector {
        assert !InFirstBitmapSector(BitmapOffset + t / 8);
      }
    }
    FreeCountMono(img, r, SectorsPerBitmapSector * bs);
  }

  /** The slot a found name sits in reads free once its bytes are zeroed. */
  lemma FreeOpened(img: seq<byte>, r: seq<byte>, e: nat, i: nat, extLength: nat)
    requires i < EntryCount && extLength <= MaxExtLength
    requires e + MaxExtLength == SlotOffset(i) + extLength
    requires |r| >= DirectoryEnd
    requires forall o :: e <= o < e + EntrySize ==> At(r, o) == 0
    ensures IsFree(r, i)
  {
    assert At(r, SlotOffset(i)) == 0 && At(r, SlotOffset(i) + 1) == 0;
  }

  /** `Add` stores the file exactly when, after any file of the same name
      is removed, the directory has a free slot, the segment count fits 16
      bits and the bitmap has a free sector per segment. Replacing a file
      always finds a slot and never leaves fewer free sectors than before. */
  lemma AddCompletes(img: seq<byte>, bs: nat, name: seq<byte>, ext: seq<byte>, data: seq<byte>)
    requires |name| <= MaxNameLength && |ext| <= MaxExtLength
    requires |img| >= DirectoryEnd
    requires Reserved(img, bs)
    requires FindEntry(img, name, ext).Some? ==> ReplaceableAt(img, FindEntry(img, name, ext).value, bs)
    ensures Add(img, bs, name, ext, data).result == Ok(()) ==>
      && (exists j :: 0 <= j < EntryCount && IsFree(Cleared(img, name, ext), j))
      && FileSegments(|data|) < 65536
      && FreeCount(Cleared(img, name, ext), SectorsPerBitmapSector * bs) >= FileSegments(|data|)
    ensures bs <= MaxBitmapSectors ==>
      && (exists j :: 0 <= j < EntryCount && IsFree(Cleared(img, name, ext), j))
      && FileSegments(|data|) < 65536
      && FreeCount(Cleared(img, name, ext), SectorsPerBitmapSector * bs) >= FileSegments(|data|)
      ==> Add(img, bs, name, ext, data).result == Ok(())
    ensures FreeCount(Cleared(img, name, ext), SectorsPerBitmapSector * bs) >= FreeCount(img, SectorsPerBitmapSector * bs)
    ensures FindEntry(img, name, ext).Some? ==> exists j :: 0 <= j < EntryCount && IsFree(Cleared(img, name, ext), j)
  {
    ClearedFacts(img, bs, name, ext);
    InsertCompletes(Cleared(img, name, ext), bs, name, ext, data);
  }

  /** With room for the file, `add` succeeds and `export` then gives back
      exactly the bytes added. */
  lemma AddExportsData(img: seq<byte>, bs: nat, name: seq<byte>, ext: seq<byte>, data: seq<byte>)
    requires |name| <= MaxNameLength && |ext| == MaxExtLength
    requires forall k :: 0 <= k < |name| ==> name[k] != 0
    requires bs <= MaxBitmapSectors
    requires |img| >= DirectoryEnd && Reserved(img, bs)
    requires UniqueKey(img, EntryKey(name, ext))
    requires FindEntry(img, name, ext).Some? ==> ReplaceableAt(img, FindEntry(img, name, ext).value, bs)
    requires FindEntry(img, name, ext).Some? || exists j :: 0 <= j < EntryCount && IsFree(img, j)
    requires FileSegments(|data|) < 65536
    requires FreeCount(img, SectorsPerBitmapSector * bs) >= FileSegments(|data|)
    ensures Add(img, bs, name, ext, data).result == Ok(())
    ensures Export(Add(img, bs, name, ext, data).image, name, ext) == Ok(data)
  {
    AddCompletes(img, bs, name, ext, data);
    AddExport(img, bs, name, ext, data, Add(img, bs, name, ext, data).image);
  }
}
