/** The free-space bitmap: one bit per sector, least significant bit first,
    starting at byte 1024; a set bit marks the sector as used. */
module Bitmap {
  import opened Outcomes
  import opened Bytes
  import opened Bits
  import opened Layout

  /** Sector `s` is marked used: bit `s % 8` of bitmap byte `s / 8`. */
  predicate Used(img: seq<byte>, s: nat)
  {
    Bit(At(img, BitmapOffset + s / 8), s % 8)
  }

  /** The sectors 0 (boot), 1 (header and directory) and the `bs` bitmap
      sectors are marked used, as `ryfs_create` leaves them. */
  predicate Reserved(img: seq<byte>, bs: nat)
  {
    forall s :: 0 <= s < bs + 2 ==> Used(img, s)
  }

  /** The byte `ryfs_mark_used` updates for sector `s` (ryfs.py:259-265). */
  function MarkUsedOffset(s: nat): nat
  {
    var bitmapSector := Units(s + 1, SectorsPerBitmapSector) - 1;
    var bitmapByte := Units(s + 1, 8) - 1;
    var bitmapByte := if bitmapByte >= BitmapSectorBytes then bitmapByte % BitmapSectorBytes else bitmapByte;
    BitmapOffset + bitmapSector * BitmapSectorBytes + bitmapByte
  }

  /** The byte `ryfs_mark_free` updates for sector `s` (ryfs.py:280-286):
      the same computation with the wrap test `> 4096` and `% 4096`. */
  function MarkFreeOffset(s: nat): (r: nat)
    ensures r >= BitmapOffset
  {
    var bitmapSector := Units(s + 1, SectorsPerBitmapSector) - 1;
    var bitmapByte := Units(s + 1, 8) - 1;
    var bitmapByte := if bitmapByte > 4096 then bitmapByte % 4096 else bitmapByte;
    BitmapOffset + bitmapSector * BitmapSectorBytes + bitmapByte
  }

  /** `ryfs_mark_used` addresses exactly the byte holding bit `s`. */
  lemma MarkUsedOffsetIsBitByte(s: nat)
    ensures MarkUsedOffset(s) == BitmapOffset + s / 8
  {
    var q, a := Units(s + 1, SectorsPerBitmapSector) - 1, Units(s + 1, 8) - 1;
    assert q == s / 4096;
    assert a == s / 8;
    assert a % 512 + 512 * q == a;
  }

  /** Below sector 32768 (16 MiB), `ryfs_mark_free` addresses the byte holding
      bit `s` exactly when `s < 4096`; above that it lands `512 * (s / 4096)`
      bytes further on. */
  lemma MarkFreeOffsetAgreement(s: nat)
    requires s < 32768
    ensures MarkFreeOffset(s) == BitmapOffset + s / 8 <==> s < SectorsPerBitmapSector
    ensures s >= SectorsPerBitmapSector ==>
      MarkFreeOffset(s) == BitmapOffset + s / 8 + BitmapSectorBytes * (s / SectorsPerBitmapSector)
  {
    var q, a := Units(s + 1, SectorsPerBitmapSector) - 1, Units(s + 1, 8) - 1;
    assert q == s / 4096;
    assert a == s / 8;
  }

  /** `ryfs_mark_used(sector)`. */
  function MarkUsed(img: seq<byte>, s: nat): (r: seq<byte>)
    ensures Used(r, s)
    ensures forall t {:trigger Used(r, t)} :: t != s ==> (Used(r, t) <==> Used(img, t))
    ensures forall o {:trigger At(r, o)} :: o != BitmapOffset + s / 8 ==> At(r, o) == At(img, o)
    ensures |r| == Max(|img|, BitmapOffset + s / 8 + 1)
  {
    MarkUsedOffsetIsBitByte(s);
    var off := MarkUsedOffset(s);
    var r := Write(img, off, [SetBit(At(img, off), s % 8)]);
    WriteView(img, off, [SetBit(At(img, off), s % 8)]);
    r
  }

  /** `ryfs_mark_free(sector)`. Below sector 4096 it clears bit `s` and no
      other; from 4096 to 32767 it leaves bit `s` as it was and clears a bit
      in another byte. */
  function MarkFree(img: seq<byte>, s: nat): (r: seq<byte>)
    ensures forall o {:trigger At(r, o)} :: o != MarkFreeOffset(s) ==> At(r, o) == At(img, o)
    ensures forall j :: Bit(At(r, MarkFreeOffset(s)), j) <==> j != s % 8 && Bit(At(img, MarkFreeOffset(s)), j)
    ensures |r| == Max(|img|, MarkFreeOffset(s) + 1)
    ensures s < SectorsPerBitmapSector ==> !Used(r, s)
    ensures s < SectorsPerBitmapSector ==> forall t {:trigger Used(r, t)} :: t != s ==> (Used(r, t) <==> Used(img, t))
    ensures SectorsPerBitmapSector <= s < 32768 ==> (Used(r, s) <==> Used(img, s))
  {
    var off := MarkFreeOffset(s);
    var r := Write(img, off, [ClearBit(At(img, off), s % 8)]);
    WriteView(img, off, [ClearBit(At(img, off), s % 8)]);
    if s < 32768 then
      MarkFreeOffsetAgreement(s);
      r
    else r
  }

  /** Marking a sector used twice is marking it once. */
  lemma MarkUsedIdempotent(img: seq<byte>, s: nat)
    ensures MarkUsed(MarkUsed(img, s), s) == MarkUsed(img, s)
  {
    MarkUsedOffsetIsBitByte(s);
    var off := MarkUsedOffset(s);
    var once := MarkUsed(img, s);
    WriteView(img, off, [SetBit(At(img, off), s % 8)]);
    SetBitIdempotent(At(img, off), s % 8);
    WriteSame(once, off, SetBit(At(once, off), s % 8));
  }

  /** Marking a sector free twice is marking it free once. */
  lemma MarkFreeIdempotent(img: seq<byte>, s: nat)
    ensures MarkFree(MarkFree(img, s), s) == MarkFree(img, s)
  {
    var off := MarkFreeOffset(s);
    var once := MarkFree(img, s);
    WriteView(img, off, [ClearBit(At(img, off), s % 8)]);
    ClearBitIdempotent(At(img, off), s % 8);
    WriteSame(once, off, ClearBit(At(once, off), s % 8));
  }

  /** Freeing a sector just marked used clears its bit again exactly when
      the sector is below 4096; and below 4096, when the bit was clear and its
      byte inside the file, the image comes back unchanged. */
  lemma MarkFreeAfterMarkUsed(img: seq<byte>, s: nat)
    requires s < 32768
    ensures !Used(MarkFree(MarkUsed(img, s), s), s) <==> s < SectorsPerBitmapSector
    ensures s < SectorsPerBitmapSector && !Used(img, s) && BitmapOffset + s / 8 < |img| ==>
      MarkFree(MarkUsed(img, s), s) == img
  {
    var used := MarkUsed(img, s);
    var back := MarkFree(used, s);
    if s < SectorsPerBitmapSector && !Used(img, s) && BitmapOffset + s / 8 < |img| {
      MarkFreeOffsetAgreement(s);
      MarkUsedOffsetIsBitByte(s);
      var off := BitmapOffset + s / 8;
      ClearUndoesSet(At(img, off), s % 8);
      assert At(back, off) == img[off] by {
        WriteView(used, off, [ClearBit(At(used, off), s % 8)]);
        WriteView(img, off, [SetBit(At(img, off), s % 8)]);
      }
      assert |back| == |img|;
      forall k | 0 <= k < |img|
        ensures back[k] == img[k]
      {
        assert At(back, k) == At(img, k);
      }
    }
  }

  /** The bits of the eight sectors `8k .. 8k+7` are the bits of bitmap
      byte `k`. */
  lemma ByteHoldsEightSectors(img: seq<byte>, k: nat)
    ensures forall t :: 8 * k <= t < 8 * k + 8 ==> (Used(img, t) <==> Bit(At(img, BitmapOffset + k), t - 8 * k))
  {
    forall t | 8 * k <= t < 8 * k + 8
      ensures Used(img, t) <==> Bit(At(img, BitmapOffset + k), t - 8 * k)
    {
      assert t / 8 == k && t % 8 == t - 8 * k;
    }
  }

  /** The scan of `ryfs_find_free_sector` from bitmap byte `k` up to byte
      `limit`. */
  function ScanBitmap(img: seq<byte>, k: nat, limit: nat): (r: Option<nat>)
    requires k <= limit
    decreases limit - k
    ensures r.None? ==> forall t :: 8 * k <= t < 8 * limit ==> Used(img, t)
    ensures r.Some? ==> 8 * k <= r.value < 8 * limit && !Used(img, r.value)
    ensures r.Some? ==> forall t :: 8 * k <= t < r.value ==> Used(img, t)
  {
    if k == limit then None
    else
      ByteHoldsEightSectors(img, k);
      FullByte(At(img, BitmapOffset + k));
      match FindFirstClear(At(img, BitmapOffset + k))
      case Some(i) =>
        assert !Used(img, 8 * k + i);
        Some(8 * k + i)
      case None => ScanBitmap(img, k + 1, limit)
  }

  /** `ryfs_find_free_sector()` over `bs` bitmap sectors (ryfs.py:196-211):
      the lowest sector whose bit is clear among the `4096 * bs` the bitmap
      covers, whatever the image's own sector count. */
  function FindFreeSector(img: seq<byte>, bs: nat): (r: Option<nat>)
    ensures r.None? ==> forall t :: 0 <= t < SectorsPerBitmapSector * bs ==> Used(img, t)
    ensures r.Some? ==> r.value < SectorsPerBitmapSector * bs && !Used(img, r.value)
    ensures r.Some? ==> forall t :: 0 <= t < r.value ==> Used(img, t)
  {
    ScanBitmap(img, 0, BitmapSectorBytes * bs)
  }

  /** The number of sectors below `m` the bitmap marks free. */
  function FreeCount(img: seq<byte>, m: nat): (r: nat)
    ensures r <= m
  {
    if m == 0 then 0 else FreeCount(img, m - 1) + (if Used(img, m - 1) then 0 else 1)
  }

  /** The count is zero exactly when every sector below `m` is in use. */
  lemma {:induction false} NoneFree(img: seq<byte>, m: nat)
    ensures FreeCount(img, m) == 0 <==> forall t :: 0 <= t < m ==> Used(img, t)
  {
    if m > 0 {
      NoneFree(img, m - 1);
    }
  }

  /** The allocator offers a sector exactly when the bitmap counts one free. */
  lemma FindsFreeSector(img: seq<byte>, bs: nat)
    ensures FindFreeSector(img, bs).Some? <==> FreeCount(img, SectorsPerBitmapSector * bs) > 0
  {
    NoneFree(img, SectorsPerBitmapSector * bs);
    if FindFreeSector(img, bs).Some? {
      assert !Used(img, FindFreeSector(img, bs).value);
    }
  }

  /** Marking one free sector used leaves one free sector fewer. */
  lemma {:induction false} FreeCountTake(a: seq<byte>, b: seq<byte>, m: nat, cur: nat)
    requires cur < m && !Used(a, cur)
    requires forall t :: 0 <= t < m ==> (Used(b, t) <==> Used(a, t) || t == cur)
    ensures FreeCount(b, m) == FreeCount(a, m) - 1
  {
    if cur == m - 1 {
      FreeCountMono(a, b, m - 1);
      FreeCountMono(b, a, m - 1);
    } else {
      FreeCountTake(a, b, m - 1, cur);
    }
  }

  /** A bitmap that marks no sector `a` leaves free counts at least as many
      free sectors as `a`. */
  lemma {:induction false} FreeCountMono(a: seq<byte>, b: seq<byte>, m: nat)
    requires forall t :: 0 <= t < m ==> (Used(b, t) ==> Used(a, t))
    ensures FreeCount(b, m) >= FreeCount(a, m)
  {
    if m > 0 {
      FreeCountMono(a, b, m - 1);
    }
  }

  lemma {:induction false} ScanBitmapFrame(a: seq<byte>, b: seq<byte>, k: nat, limit: nat)
    requires k <= limit
    requires forall o :: BitmapOffset + k <= o < BitmapOffset + limit ==> At(a, o) == At(b, o)
    ensures ScanBitmap(a, k, limit) == ScanBitmap(b, k, limit)
    decreases limit - k
  {
    if k < limit {
      assert At(a, BitmapOffset + k) == At(b, BitmapOffset + k);
      ScanBitmapFrame(a, b, k + 1, limit);
    }
  }

  /** The allocator reads nothing but the bitmap. */
  lemma FindFreeSectorFrame(a: seq<byte>, b: seq<byte>, bs: nat)
    requires forall o :: BitmapOffset <= o < BitmapOffset + BitmapSectorBytes * bs ==> At(a, o) == At(b, o)
    ensures FindFreeSector(a, bs) == FindFreeSector(b, bs)
  {
    ScanBitmapFrame(a, b, 0, BitmapSectorBytes * bs);
  }
}
