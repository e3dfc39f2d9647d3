/** What `ryfs_remove` does to an image whose chain lies in the first
    bitmap sector, past the boot, directory and first bitmap sector: the
    range where `ryfs_mark_free` addresses the right bit. */
module Removal {
  import opened Outcomes
  import opened Bytes
  import opened Layout
  import opened Bitmap
  import opened Directory
  import opened Chain
  import opened Files

  /** The sectors of `c` lie where freeing them touches only their own bits
      in the first bitmap sector, and no segment header. */
  ghost predicate Freeable(c: seq<nat>)
  {
    forall j :: 0 <= j < |c| ==> 3 <= c[j] < SectorsPerBitmapSector
  }

  /** The bytes a free writes to: the first bitmap sector. */
  predicate InFirstBitmapSector(o: int)
  {
    BitmapOffset <= o < BitmapOffset + BitmapSectorBytes
  }

  /** The walk over a chain reads only segment headers, which lie past the
      first bitmap sector. */
  lemma {:induction false} ChainSectorsFrame(a: seq<byte>, b: seq<byte>, s: nat, count: nat)
    requires forall j :: 0 <= j < count ==> 3 <= ChainSectors(a, s, count)[j]
    requires forall o :: o >= BitmapOffset + BitmapSectorBytes ==> At(a, o) == At(b, o)
    ensures ChainSectors(a, s, count) == ChainSectors(b, s, count)
    decreases count
  {
    if count > 0 {
      var next := U16(a, SectorOffset(s) + 2);
      assert ChainSectors(a, s, count)[0] == s;
      assert U16(b, SectorOffset(s) + 2) == next;
      var rest := ChainSectors(a, next, count - 1);
      assert ChainSectors(a, s, count) == [s] + rest;
      forall j | 0 <= j < count - 1
        ensures 3 <= rest[j]
      {
        assert rest[j] == ChainSectors(a, s, count)[j + 1];
      }
      ChainSectorsFrame(a, b, next, count - 1);
    }
  }

  /** Freeing a sector of the first bitmap sector's range writes its own
      bitmap byte only. */
  lemma FreeOne(img: seq<byte>, s: nat)
    requires s < SectorsPerBitmapSector
    ensures MarkFreeOffset(s) == BitmapOffset + s / 8
    ensures forall o :: !InFirstBitmapSector(o) ==> At(MarkFree(img, s), o) == At(img, o)
  {
    MarkFreeOffsetAgreement(s);
  }

  /** The loop of `ryfs_remove` changes nothing outside the first bitmap
      sector. */
  lemma {:induction false} FreeChainFrame(img: seq<byte>, s: nat, count: nat)
    requires Freeable(ChainSectors(img, s, count))
    ensures |FreeChain(img, s, count)| >= |img|
    ensures forall o {:trigger At(FreeChain(img, s, count), o)} :: !InFirstBitmapSector(o) ==> At(FreeChain(img, s, count), o) == At(img, o)
    decreases count
  {
    if count > 0 {
      var freed := MarkFree(img, s);
      var next := U16(freed, SectorOffset(s) + 2);
      FreeStep(img, s, count);
      FreeChainFrame(freed, next, count - 1);
    }
  }

  /** The loop of `ryfs_remove` clears the bits of the chain's sectors and
      no other bit of the first bitmap sector. */
  lemma {:induction false} FreeChainBits(img: seq<byte>, s: nat, count: nat)
    requires Freeable(ChainSectors(img, s, count))
    ensures forall t :: 0 <= t < SectorsPerBitmapSector ==>
      (Used(FreeChain(img, s, count), t) <==> Used(img, t) && t !in ChainSectors(img, s, count))
    decreases count
  {
    if count > 0 {
      var freed := MarkFree(img, s);
      var next := U16(freed, SectorOffset(s) + 2);
      FreeStep(img, s, count);
      FreeChainBits(freed, next, count - 1);
      forall t | 0 <= t < SectorsPerBitmapSector
        ensures Used(FreeChain(img, s, count), t) <==> Used(img, t) && t !in ChainSectors(img, s, count)
      {
        if t != s {
          assert Used(freed, t) <==> Used(img, t);
        }
      }
    }
  }

  /** One free of the loop: the first bitmap sector is all it writes, the
      walk goes on from the link of `s` as it was, over the rest of the
      chain, which stays freeable. */
  lemma FreeStep(img: seq<byte>, s: nat, count: nat)
    requires count > 0
    requires Freeable(ChainSectors(img, s, count))
    ensures s < SectorsPerBitmapSector
    ensures forall o {:trigger At(MarkFree(img, s), o)} :: !InFirstBitmapSector(o) ==> At(MarkFree(img, s), o) == At(img, o)
    ensures FreeChain(img, s, count) == FreeChain(MarkFree(img, s), U16(MarkFree(img, s), SectorOffset(s) + 2), count - 1)
    ensures ChainSectors(img, s, count) == [s] + ChainSectors(MarkFree(img, s), U16(MarkFree(img, s), SectorOffset(s) + 2), count - 1)
    ensures Freeable(ChainSectors(MarkFree(img, s), U16(MarkFree(img, s), SectorOffset(s) + 2), count - 1))
  {
    var c := ChainSectors(img, s, count);
    var freed := MarkFree(img, s);
    assert c[0] == s;
    FreeOne(img, s);
    var next := U16(img, SectorOffset(s) + 2);
    assert U16(freed, SectorOffset(s) + 2) == next;
    var rest := ChainSectors(img, next, count - 1);
    assert c == [s] + rest;
    forall j | 0 <= j < count - 1
      ensures 3 <= rest[j] < SectorsPerBitmapSector
    {
      assert rest[j] == c[j + 1];
    }
    ChainSectorsFrame(img, freed, next, count - 1);
  }

  /** Once the entry at `e` is found, `ryfs_remove` zeroes its 16 bytes and
      changes nothing else in front of the bitmap, whatever the chain. */
  lemma EraseBelowBitmap(img: seq<byte>, e: nat)
    requires e + EntrySize <= BitmapOffset
    ensures |Erase(img, e)| >= |img|
    ensures forall o :: 0 <= o < BitmapOffset ==> At(Erase(img, e), o) == if e <= o < e + EntrySize then 0 else At(img, o)
  {
    var freed := MarkFree(img, U16(img, e));
    assert MarkFreeOffset(U16(img, e)) >= BitmapOffset;
    var walked := FreeChain(freed, U16(freed, e), U16(freed, e + 2));
    forall o | 0 <= o < BitmapOffset
      ensures At(Erase(img, e), o) == if e <= o < e + EntrySize then 0 else At(img, o)
    {
      WriteAt(walked, e, Zeros(EntrySize), o);
    }
  }

  /** The entry `ryfs_remove` works on, and the chain it frees. */
  ghost predicate RemovableAt(img: seq<byte>, e: nat)
  {
    && 3 <= U16(img, e) < SectorsPerBitmapSector
    && Freeable(ChainSectors(img, U16(img, e), U16(img, e + 2)))
  }

  /** Going from `img` to `r`, the slot at `e` is zeroed, the bits of
      `first` and of the sectors of `c` are cleared, no other bit of the
      first bitmap sector changes, and nothing else outside the slot and
      the first bitmap sector does. */
  ghost predicate Removed(img: seq<byte>, r: seq<byte>, e: nat, first: nat, c: seq<nat>)
  {
    && |r| >= |img|
    && (forall o :: e <= o < e + EntrySize ==> At(r, o) == 0)
    && (forall o :: !(e <= o < e + EntrySize) && !InFirstBitmapSector(o) ==> At(r, o) == At(img, o))
    && (forall t :: 0 <= t < SectorsPerBitmapSector ==> (Used(r, t) <==> Used(img, t) && t != first && t !in c))
  }

  /** Removing a file whose chain lies in the first bitmap sector's range
      zeroes its slot, clears the bits of its first sector and of every
      sector of its chain and of no other sector, and changes nothing else
      outside the first bitmap sector. */
  lemma RemoveSpec(img: seq<byte>, name: seq<byte>, ext: seq<byte>, e: nat)
    requires |name| <= MaxNameLength
    requires FindEntry(img, name, ext) == Some(e)
    requires RemovableAt(img, e)
    ensures Remove(img, name, ext).result == Ok(())
    ensures Removed(img, Remove(img, name, ext).image, e, U16(img, e), ChainSectors(img, U16(img, e), U16(img, e + 2)))
  {
    assert e + EntrySize <= BitmapOffset by {
      assert e + MaxExtLength == SlotOffset(EntrySlot(img, name, ext).value) + |ext|;
    }
    EraseSpec(img, e);
  }

  /** The steps of `ryfs_remove` once the entry at `e` is found. */
  lemma EraseSpec(img: seq<byte>, e: nat)
    requires e + EntrySize <= BitmapOffset
    requires RemovableAt(img, e)
    ensures Removed(img, Erase(img, e), e, U16(img, e), ChainSectors(img, U16(img, e), U16(img, e + 2)))
  {
    EraseFrame(img, e);
    EraseBits(img, e);
  }

  /** The walk `Erase` does starts at the entry's first sector and covers
      its segment count: the first free writes to the bitmap only. */
  lemma EraseWalk(img: seq<byte>, e: nat)
    requires e + EntrySize <= BitmapOffset
    requires RemovableAt(img, e)
    ensures var freed := MarkFree(img, U16(img, e));
      && U16(freed, e) == U16(img, e) && U16(freed, e + 2) == U16(img, e + 2)
      && ChainSectors(freed, U16(img, e), U16(img, e + 2)) == ChainSectors(img, U16(img, e), U16(img, e + 2))
      && Freeable(ChainSectors(freed, U16(img, e), U16(img, e + 2)))
  {
    var first := U16(img, e);
    var freed := MarkFree(img, first);
    FreeOne(img, first);
    assert U16(freed, e) == first && U16(freed, e + 2) == U16(img, e + 2);
    ChainSectorsFrame(img, freed, first, U16(img, e + 2));
  }

  /** `Erase` zeroes the slot and changes nothing outside it and the first
      bitmap sector. */
  lemma EraseFrame(img: seq<byte>, e: nat)
    requires e + EntrySize <= BitmapOffset
    requires RemovableAt(img, e)
    ensures |Erase(img, e)| >= |img|
    ensures forall o :: e <= o < e + EntrySize ==> At(Erase(img, e), o) == 0
    ensures forall o :: !(e <= o < e + EntrySize) && !InFirstBitmapSector(o) ==> At(Erase(img, e), o) == At(img, o)
  {
    var first := U16(img, e);
    var count := U16(img, e + 2);
    var freed := MarkFree(img, first);
    FreeOne(img, first);
    EraseWalk(img, e);
    FreeChainFrame(freed, first, count);
    WriteView(FreeChain(freed, first, count), e, Zeros(EntrySize));
  }

  /** `Erase` clears the bits of the entry's first sector and of its chain,
      and no other bit of the first bitmap sector. */
  lemma EraseBits(img: seq<byte>, e: nat)
    requires e + EntrySize <= BitmapOffset
    requires RemovableAt(img, e)
    ensures var first := U16(img, e);
      var c := ChainSectors(img, first, U16(img, e + 2));
      forall t :: 0 <= t < SectorsPerBitmapSector ==> (Used(Erase(img, e), t) <==> Used(img, t) && t != first && t !in c)
  {
    var first := U16(img, e);
    var count := U16(img, e + 2);
    var freed := MarkFree(img, first);
    FreeOne(img, first);
    EraseWalk(img, e);
    var c := ChainSectors(img, first, count);
    FreeChainBits(freed, first, count);
    var walked := FreeChain(freed, first, count);
    var r := Erase(img, e);
    WriteView(walked, e, Zeros(EntrySize));
    forall t | 0 <= t < SectorsPerBitmapSector
      ensures Used(r, t) <==> Used(img, t) && t != first && t !in c
    {
      assert At(r, BitmapOffset + t / 8) == At(walked, BitmapOffset + t / 8);
      assert Used(r, t) == Used(walked, t);
      assert Used(walked, t) <==> Used(freed, t) && t !in c;
      if t == first {
        assert !Used(freed, t);
      } else {
        assert Used(freed, t) <==> Used(img, t);
      }
    }
  }
}
