/** Sector chains: a file's data as a linked list of 512-byte segments,
    `FF 00 next:u16 trailing:u16 payload[506]`. `trailing` is the number of
    payload bytes in use and is written on the last segment only. */
module Chain {
  import opened Outcomes
  import opened Bytes
  import opened Bits
  import opened Layout
  import opened Bitmap

  /** Offset of sector `s`. */
  function SectorOffset(s: nat): nat
  {
    SectorSize * s
  }

  /** The 512 bytes of a segment. */
  function SegmentBytes(next: nat, trailing: nat, chunk: seq<byte>): (r: seq<byte>)
    requires next < 65536 && trailing < 65536 && |chunk| <= PayloadSize
    ensures |r| == SectorSize
  {
    [255, 0] + LE16(next) + LE16(trailing) + chunk + Zeros(PayloadSize - |chunk|)
  }

  /** The writes one iteration of `ryfs_add`'s loop makes to sector `s`
      (ryfs.py:95-112), in order: the flag bytes, the link and trailing
      size, 506 zero bytes, then the chunk of file data over them. */
  function SegmentWrites(img: seq<byte>, s: nat, next: nat, trailing: nat, chunk: seq<byte>): seq<byte>
    requires next < 65536 && trailing < 65536 && |chunk| <= PayloadSize
  {
    var base := SectorOffset(s);
    var img1 := Write(img, base, [255, 0]);
    var img2 := Write(img1, base + 2, LE16(next) + LE16(trailing));
    var img3 := Write(img2, base + 6, Zeros(PayloadSize));
    Write(img3, base + 6, chunk)
  }

  /** The segment laid down in one write; `SegmentWritesAreOneWrite` shows
      it is what the four writes leave. */
  function WriteSegment(img: seq<byte>, s: nat, next: nat, trailing: nat, chunk: seq<byte>): (r: seq<byte>)
    requires next < 65536 && trailing < 65536 && |chunk| <= PayloadSize
    ensures |r| == Max(|img|, SectorOffset(s) + SectorSize)
    ensures forall x :: 0 <= x < SectorSize ==> At(r, SectorOffset(s) + x) == SegmentBytes(next, trailing, chunk)[x]
    ensures forall o {:trigger At(r, o)} :: !(SectorOffset(s) <= o < SectorOffset(s) + SectorSize) ==> At(r, o) == At(img, o)
  {
    var seg := SegmentBytes(next, trailing, chunk);
    WriteView(img, SectorOffset(s), seg);
    Write(img, SectorOffset(s), seg)
  }

  /** The segment byte that lands at offset `o` when the segment is
      written at `base`, field by field. */
  lemma SegmentByte(next: nat, trailing: nat, chunk: seq<byte>, base: nat, o: int)
    requires next < 65536 && trailing < 65536 && |chunk| <= PayloadSize
    requires base <= o < base + SectorSize
    ensures SegmentBytes(next, trailing, chunk)[o - base] ==
      if o < base + 2 then [255, 0][o - base]
      else if o < base + 6 then (LE16(next) + LE16(trailing))[o - base - 2]
      else if o < base + 6 + |chunk| then chunk[o - base - 6]
      else 0
  {
  }

  /** The four writes of an iteration change the file exactly as writing
      the 512 segment bytes at the sector's offset does. */
  lemma SegmentWritesAreOneWrite(img: seq<byte>, s: nat, next: nat, trailing: nat, chunk: seq<byte>)
    requires next < 65536 && trailing < 65536 && |chunk| <= PayloadSize
    ensures SegmentWrites(img, s, next, trailing, chunk) == WriteSegment(img, s, next, trailing, chunk)
  {
    var a := SegmentWrites(img, s, next, trailing, chunk);
    var b := WriteSegment(img, s, next, trailing, chunk);
    assert |a| == |b|;
    forall o | 0 <= o < |a|
      ensures a[o] == b[o]
    {
      SegmentWritesAt(img, s, next, trailing, chunk, o);
    }
    assert a == b;
  }

  /** The four writes and the one write agree at offset `o`. */
  lemma SegmentWritesAt(img: seq<byte>, s: nat, next: nat, trailing: nat, chunk: seq<byte>, o: int)
    requires next < 65536 && trailing < 65536 && |chunk| <= PayloadSize
    ensures At(SegmentWrites(img, s, next, trailing, chunk), o) == At(WriteSegment(img, s, next, trailing, chunk), o)
  {
    var v := FourWritesAt(img, s, next, trailing, chunk, o);
    var w := WriteSegmentAt(img, s, next, trailing, chunk, o);
    if SectorOffset(s) <= o < SectorOffset(s) + SectorSize {
      SegmentByte(next, trailing, chunk, SectorOffset(s), o);
    }
  }

  /** The view of the file after the one write, at one offset. */
  lemma WriteSegmentAt(img: seq<byte>, s: nat, next: nat, trailing: nat, chunk: seq<byte>, o: int) returns (w: byte)
    requires next < 65536 && trailing < 65536 && |chunk| <= PayloadSize
    ensures w == At(WriteSegment(img, s, next, trailing, chunk), o)
    ensures w == if SectorOffset(s) <= o < SectorOffset(s) + SectorSize then SegmentBytes(next, trailing, chunk)[o - SectorOffset(s)] else At(img, o)
  {
    WriteAt(img, SectorOffset(s), SegmentBytes(next, trailing, chunk), o);
    w := At(WriteSegment(img, s, next, trailing, chunk), o);
  }

  /** The view of the file after the four writes, at one offset. */
  lemma FourWritesAt(img: seq<byte>, s: nat, next: nat, trailing: nat, chunk: seq<byte>, o: int) returns (v: byte)
    requires next < 65536 && trailing < 65536 && |chunk| <= PayloadSize
    ensures v == At(SegmentWrites(img, s, next, trailing, chunk), o)
    ensures v ==
        if o < SectorOffset(s) || o >= SectorOffset(s) + SectorSize then At(img, o)
        else if o < SectorOffset(s) + 2 then [255, 0][o - SectorOffset(s)]
        else if o < SectorOffset(s) + 6 then (LE16(next) + LE16(trailing))[o - SectorOffset(s) - 2]
        else if o < SectorOffset(s) + 6 + |chunk| then chunk[o - SectorOffset(s) - 6]
        else 0
  {
    WriteAt(img, SectorOffset(s), [255, 0], o);
    WriteAt(Write(img, SectorOffset(s), [255, 0]), SectorOffset(s) + 2, LE16(next) + LE16(trailing), o);
    WriteAt(Write(Write(img, SectorOffset(s), [255, 0]), SectorOffset(s) + 2, LE16(next) + LE16(trailing)),
      SectorOffset(s) + 6, Zeros(PayloadSize), o);
    WriteAt(Write(Write(Write(img, SectorOffset(s), [255, 0]), SectorOffset(s) + 2, LE16(next) + LE16(trailing)),
      SectorOffset(s) + 6, Zeros(PayloadSize)), SectorOffset(s) + 6, chunk, o);
    v := At(SegmentWrites(img, s, next, trailing, chunk), o);
  }

  /** The file bytes segment `k` carries: `read(506)` after the `k` earlier
      reads. */
  function Chunk(data: seq<byte>, k: nat): (r: seq<byte>)
    ensures |r| <= PayloadSize
  {
    var read := Min(PayloadSize * k, |data|);
    data[read .. Min(read + PayloadSize, |data|)]
  }

  /** The loop of `ryfs_add` (ryfs.py:88-112) from iteration `k` of `n`. */
  function WriteChain(img: seq<byte>, bs: nat, data: seq<byte>, k: nat, n: nat): (o: Outcome<()>)
    requires n == FileSegments(|data|) && k <= n
    decreases n - k, 2
    ensures o.result == Ok(()) || o.result == Err(Crashed)
    ensures |o.image| >= |img|
  {
    if k == n then Outcome(Ok(()), img) else Iteration(img, bs, data, k, n)
  }

  /** Iteration `k` of the loop of `ryfs_add`, then the rest of the loop:
      take the lowest free sector. Running out of sectors raises, which the
      tool does not catch. */
  function Iteration(img: seq<byte>, bs: nat, data: seq<byte>, k: nat, n: nat): (o: Outcome<()>)
    requires n == FileSegments(|data|) && k < n
    decreases n - k, 1
    ensures o.result == Ok(()) || o.result == Err(Crashed)
    ensures |o.image| >= |img|
  {
    match FindFreeSector(img, bs)
    case None => Outcome(Err(Crashed), img)
    case Some(cur) => IterationAt(img, bs, data, k, n, cur)
  }

  /** The rest of iteration `k` once it has taken sector `cur`: mark it
      used, look up the sector the next iteration will take and write the
      segment linking to it; then the rest of the loop. */
  function IterationAt(img: seq<byte>, bs: nat, data: seq<byte>, k: nat, n: nat, cur: nat): (o: Outcome<()>)
    requires n == FileSegments(|data|) && k < n
    decreases n - k, 0
    ensures o.result == Ok(()) || o.result == Err(Crashed)
    ensures |o.image| >= |img|
  {
    var marked := MarkUsed(img, cur);
    if k != n - 1 then
      match FindFreeSector(marked, bs)
      case None => Outcome(Err(Crashed), Write(marked, SectorOffset(cur), [255, 0]))
      case Some(next) =>
        if next >= 65536 then Outcome(Err(Crashed), Write(marked, SectorOffset(cur), [255, 0]))
        else WriteChain(WriteSegment(marked, cur, next, 0, Chunk(data, k)), bs, data, k + 1, n)
    else
      var trailing := |data| - Min(PayloadSize * k, |data|);
      WriteChain(WriteSegment(marked, cur, 0, trailing, Chunk(data, k)), bs, data, k + 1, n)
  }


  /** The loop of `ryfs_export` (ryfs.py:160-174) from iteration `k` of `n`,
      at sector `s`: the last segment is recognised by the loop count, not by
      its link. */
  function ReadChain(img: seq<byte>, s: nat, k: nat, n: nat): (r: seq<byte>)
    ensures k < n ==> |r| <= PayloadSize * (n - k - 1) + 65535
    ensures k >= n ==> r == []
    decreases n - k
  {
    if k >= n then []
    else
      var base := SectorOffset(s);
      var next := U16(img, base + 2);
      var trailing := U16(img, base + 4);
      (if k != n - 1 then Read(img, base + 6, PayloadSize) else Read(img, base + 6, trailing))
        + ReadChain(img, next, k + 1, n)
  }

  /** The sectors a walk of `count` segments from sector `s` visits. */
  function ChainSectors(img: seq<byte>, s: nat, count: nat): (r: seq<nat>)
    ensures |r| == count
    ensures count > 0 ==> r[0] == s
    decreases count
  {
    if count == 0 then [] else [s] + ChainSectors(img, U16(img, SectorOffset(s) + 2), count - 1)
  }

  /** The loop of `ryfs_remove` (ryfs.py:134-138): free the sector, then read
      its link. Wherever the chain's sectors lie, `ryfs_mark_free` writes
      from offset 1024 on, so nothing in front of the bitmap changes. */
  function FreeChain(img: seq<byte>, s: nat, count: nat): (r: seq<byte>)
    ensures |r| >= |img|
    ensures forall o {:trigger At(r, o)} :: 0 <= o < BitmapOffset ==> At(r, o) == At(img, o)
    decreases count
  {
    if count == 0 then img
    else
      var freed := MarkFree(img, s);
      FreeChain(freed, U16(freed, SectorOffset(s) + 2), count - 1)
  }

  /** Sector `s` holds the segment `next`, `trailing`, `chunk`. */
  ghost predicate SegmentAt(img: seq<byte>, s: nat, next: nat, trailing: nat, chunk: seq<byte>)
    requires next < 65536 && trailing < 65536 && |chunk| <= PayloadSize
  {
    && |img| >= SectorOffset(s) + SectorSize
    && forall x :: 0 <= x < SectorSize ==> At(img, SectorOffset(s) + x) == SegmentBytes(next, trailing, chunk)[x]
  }

  /** Reading a segment back: the flag bytes, its link, its trailing size and
      its payload. */
  lemma SegmentFields(img: seq<byte>, s: nat, next: nat, trailing: nat, chunk: seq<byte>)
    requires next < 65536 && trailing < 65536 && |chunk| <= PayloadSize
    requires SegmentAt(img, s, next, trailing, chunk)
    ensures At(img, SectorOffset(s)) == 255 && At(img, SectorOffset(s) + 1) == 0
    ensures U16(img, SectorOffset(s) + 2) == next
    ensures U16(img, SectorOffset(s) + 4) == trailing
    ensures Read(img, SectorOffset(s) + 6, |chunk|) == chunk
  {
    var base := SectorOffset(s);
    var seg := SegmentBytes(next, trailing, chunk);
    assert At(img, base) == seg[0] && At(img, base + 1) == seg[1];
    assert At(img, base + 2) == seg[2] && At(img, base + 3) == seg[3];
    assert At(img, base + 4) == seg[4] && At(img, base + 5) == seg[5];
    assert seg[2] == LE16(next)[0] && seg[3] == LE16(next)[1];
    assert seg[4] == LE16(trailing)[0] && seg[5] == LE16(trailing)[1];
    forall x | 0 <= x < |chunk|
      ensures At(img, base + 6 + x) == chunk[x]
    {
      assert At(img, base + (6 + x)) == seg[6 + x];
    }
    ReadIs(img, base + 6, chunk);
  }

  /** Bytes the loop of `ryfs_add` never writes: everything before the
      bitmap, and past the bitmap's `bs` sectors every byte of a sector that
      is in use or that the bitmap does not cover. */
  predicate Kept(img: seq<byte>, bs: nat, o: int)
  {
    o < BitmapOffset ||
    (o >= BitmapOffset + BitmapSectorBytes * bs &&
      (o / SectorSize >= SectorsPerBitmapSector * bs || Used(img, o / SectorSize)))
  }

  /** Going from `img` to `r`, the file does not shrink, the reserved
      sectors stay in use, no bit the bitmap covers is cleared and no kept
      byte changes. */
  ghost predicate Preserved(img: seq<byte>, r: seq<byte>, bs: nat)
  {
    && |r| >= |img| && (Reserved(img, bs) ==> Reserved(r, bs))
    && (forall o {:trigger At(r, o)} :: Kept(img, bs, o) ==> At(r, o) == At(img, o))
    && (forall t {:trigger Used(r, t)} :: 0 <= t < SectorsPerBitmapSector * bs && Used(img, t) ==> Used(r, t))
  }

  /** The bytes of a sector are kept once the sector is in use. */
  lemma SectorKept(img: seq<byte>, bs: nat, s: nat, x: int)
    requires bs + 2 <= s && Used(img, s) && 0 <= x < SectorSize
    ensures Kept(img, bs, SectorOffset(s) + x)
  {
    assert (SectorOffset(s) + x) / SectorSize == s;
  }

  /** The sector the allocator offers lies past the reserved ones. */
  lemma Allocated(img: seq<byte>, bs: nat, cur: nat)
    requires Reserved(img, bs)
    requires FindFreeSector(img, bs) == Some(cur)
    ensures bs + 2 <= cur < SectorsPerBitmapSector * bs && !Used(img, cur)
    ensures SectorOffset(cur) >= BitmapOffset + BitmapSectorBytes * bs
  {
  }

  /** Marking the offered sector used and writing its segment changes the
      bits of no sector but that one. */
  lemma StepUsed(img: seq<byte>, bs: nat, cur: nat, next: nat, trailing: nat, chunk: seq<byte>, seg: seq<byte>)
    requires Reserved(img, bs)
    requires FindFreeSector(img, bs) == Some(cur)
    requires next < 65536 && trailing < 65536 && |chunk| <= PayloadSize
    requires seg == WriteSegment(MarkUsed(img, cur), cur, next, trailing, chunk)
    ensures forall t {:trigger Used(seg, t)} :: 0 <= t < SectorsPerBitmapSector * bs ==> (Used(seg, t) <==> Used(img, t) || t == cur)
  {
    var marked := MarkUsed(img, cur);
    Allocated(img, bs, cur);
    forall t | 0 <= t < SectorsPerBitmapSector * bs
      ensures Used(seg, t) <==> Used(img, t) || t == cur
    {
      assert At(seg, BitmapOffset + t / 8) == At(marked, BitmapOffset + t / 8);
    }
  }

  /** A kept byte lies outside the offered sector and outside the bitmap
      byte that marks it. */
  lemma KeptOutside(img: seq<byte>, bs: nat, cur: nat, o: int)
    requires bs + 2 <= cur < SectorsPerBitmapSector * bs && !Used(img, cur)
    requires Kept(img, bs, o)
    ensures !(SectorOffset(cur) <= o < SectorOffset(cur) + SectorSize)
    ensures o != BitmapOffset + cur / 8
  {
    var q := o / SectorSize;
    assert SectorOffset(cur) <= o < SectorOffset(cur) + SectorSize ==> q == cur;
  }

  /** Marking the offered sector used and writing its segment changes no
      kept byte. */
  lemma StepFrame(img: seq<byte>, bs: nat, cur: nat, next: nat, trailing: nat, chunk: seq<byte>, seg: seq<byte>)
    requires Reserved(img, bs)
    requires FindFreeSector(img, bs) == Some(cur)
    requires next < 65536 && trailing < 65536 && |chunk| <= PayloadSize
    requires seg == WriteSegment(MarkUsed(img, cur), cur, next, trailing, chunk)
    ensures forall o {:trigger At(seg, o)} :: Kept(img, bs, o) ==> At(seg, o) == At(img, o)
  {
    var marked := MarkUsed(img, cur);
    Allocated(img, bs, cur);
    forall o | Kept(img, bs, o)
      ensures At(seg, o) == At(img, o)
    {
      KeptOutside(img, bs, cur, o);
      assert At(seg, o) == At(marked, o);
    }
  }

  /** Marking the offered sector used and writing its segment preserves the
      image. */
  lemma StepPreserves(img: seq<byte>, bs: nat, cur: nat, next: nat, trailing: nat, chunk: seq<byte>, seg: seq<byte>)
    requires Reserved(img, bs)
    requires FindFreeSector(img, bs) == Some(cur)
    requires next < 65536 && trailing < 65536 && |chunk| <= PayloadSize
    requires seg == WriteSegment(MarkUsed(img, cur), cur, next, trailing, chunk)
    ensures Used(seg, cur)
    ensures Preserved(img, seg, bs)
    ensures forall o {:trigger Kept(seg, bs, o)} :: Kept(img, bs, o) ==> Kept(seg, bs, o)
  {
    Allocated(img, bs, cur);
    StepUsed(img, bs, cur, next, trailing, chunk, seg);
    StepFrame(img, bs, cur, next, trailing, chunk, seg);
  }

  /** The segment is in its sector, and the allocator sees the image as it
      was once the sector was marked used. */
  lemma StepWrites(img: seq<byte>, bs: nat, cur: nat, next: nat, trailing: nat, chunk: seq<byte>, seg: seq<byte>)
    requires Reserved(img, bs)
    requires FindFreeSector(img, bs) == Some(cur)
    requires next < 65536 && trailing < 65536 && |chunk| <= PayloadSize
    requires seg == WriteSegment(MarkUsed(img, cur), cur, next, trailing, chunk)
    ensures SegmentAt(seg, cur, next, trailing, chunk)
    ensures FindFreeSector(seg, bs) == FindFreeSector(MarkUsed(img, cur), bs)
  {
    var marked := MarkUsed(img, cur);
    Allocated(img, bs, cur);
    forall o | BitmapOffset <= o < BitmapOffset + BitmapSectorBytes * bs
      ensures At(seg, o) == At(marked, o)
    {
    }
    FindFreeSectorFrame(seg, marked, bs);
  }

  /** Preservation composes when every byte kept by the first step is kept
      by the second. */
  lemma PreservedTrans(a: seq<byte>, b: seq<byte>, c: seq<byte>, bs: nat)
    requires Preserved(a, b, bs) && Preserved(b, c, bs)
    requires forall o {:trigger Kept(b, bs, o)} :: Kept(a, bs, o) ==> Kept(b, bs, o)
    ensures Preserved(a, c, bs)
  {
  }

  /** A segment in a sector in use stays as it is. */
  lemma SegmentKept(img: seq<byte>, r: seq<byte>, bs: nat, s: nat, next: nat, trailing: nat, chunk: seq<byte>)
    requires next < 65536 && trailing < 65536 && |chunk| <= PayloadSize
    requires SegmentAt(img, s, next, trailing, chunk)
    requires bs + 2 <= s && Used(img, s)
    requires Preserved(img, r, bs)
    ensures SegmentAt(r, s, next, trailing, chunk)
  {
    forall x | 0 <= x < SectorSize
      ensures At(r, SectorOffset(s) + x) == SegmentBytes(next, trailing, chunk)[x]
    {
      SectorKept(img, bs, s, x);
    }
  }

  /** The file data from segment `k` on reads back from the chain at `s0`. */
  ghost predicate ChainData(r: seq<byte>, data: seq<byte>, k: nat, n: nat, s0: nat)
  {
    PayloadSize * k <= |data| && ReadChain(r, s0, k, n) == data[PayloadSize * k ..]
  }

  /** A full segment linking to the rest of the data reads back as its chunk
      followed by the rest. */
  lemma DataCons(r: seq<byte>, data: seq<byte>, k: nat, n: nat, cur: nat, next: nat)
    requires k < n - 1
    requires PayloadSize * (k + 1) <= |data|
    requires U16(r, SectorOffset(cur) + 2) == next
    requires Read(r, SectorOffset(cur) + 6, PayloadSize) == Chunk(data, k)
    requires ChainData(r, data, k + 1, n, next)
    ensures ChainData(r, data, k, n, cur)
  {
    assert data[PayloadSize * k ..] == Chunk(data, k) + data[PayloadSize * (k + 1) ..];
  }

  /** The sectors `c` were free in `img`, lie past the reserved sectors
      within the bitmap's reach, and are in use in `r`. */
  ghost predicate Fresh(img: seq<byte>, r: seq<byte>, bs: nat, c: seq<nat>)
  {
    forall j :: 0 <= j < |c| ==> bs + 2 <= c[j] < SectorsPerBitmapSector * bs && !Used(img, c[j]) && Used(r, c[j])
  }

  ghost predicate Distinct(c: seq<nat>)
  {
    forall i, j :: 0 <= i < j < |c| ==> c[i] != c[j]
  }

  /** Each sector of `c` is flagged `FF 00`; all but the last carry a zero
      trailing size, and the last has a zero link and trailing size `last`. */
  ghost predicate SegmentsFormatted(r: seq<byte>, c: seq<nat>, last: nat)
  {
    && |c| > 0
    && (forall j :: 0 <= j < |c| ==> At(r, SectorOffset(c[j])) == 255 && At(r, SectorOffset(c[j]) + 1) == 0)
    && (forall j :: 0 <= j < |c| - 1 ==> U16(r, SectorOffset(c[j]) + 4) == 0)
    && U16(r, SectorOffset(c[|c| - 1]) + 2) == 0
    && U16(r, SectorOffset(c[|c| - 1]) + 4) == last
  }

  lemma FreshCons(img: seq<byte>, mid: seq<byte>, r: seq<byte>, bs: nat, cur: nat, c': seq<nat>)
    requires bs + 2 <= cur < SectorsPerBitmapSector * bs && !Used(img, cur) && Used(r, cur)
    requires forall t {:trigger Used(mid, t)} :: 0 <= t < SectorsPerBitmapSector * bs && Used(img, t) ==> Used(mid, t)
    requires Fresh(mid, r, bs, c')
    ensures Fresh(img, r, bs, [cur] + c')
  {
    var c := [cur] + c';
    forall j | 0 <= j < |c|
      ensures bs + 2 <= c[j] < SectorsPerBitmapSector * bs && !Used(img, c[j]) && Used(r, c[j])
    {
      if j > 0 {
        assert c[j] == c'[j - 1];
      }
    }
  }

  lemma DistinctCons(cur: nat, c': seq<nat>)
    requires Distinct(c')
    requires forall j :: 0 <= j < |c'| ==> c'[j] != cur
    ensures Distinct([cur] + c')
  {
    var c := [cur] + c';
    forall i, j | 0 <= i < j < |c|
      ensures c[i] != c[j]
    {
      assert c[j] == c'[j - 1];
      if i > 0 {
        assert c[i] == c'[i - 1];
      }
    }
  }

  lemma SegmentsFormattedCons(r: seq<byte>, cur: nat, c': seq<nat>, last: nat)
    requires At(r, SectorOffset(cur)) == 255 && At(r, SectorOffset(cur) + 1) == 0
    requires U16(r, SectorOffset(cur) + 4) == 0
    requires SegmentsFormatted(r, c', last)
    ensures SegmentsFormatted(r, [cur] + c', last)
  {
    var c := [cur] + c';
    forall j | 0 <= j < |c|
      ensures At(r, SectorOffset(c[j])) == 255 && At(r, SectorOffset(c[j]) + 1) == 0
    {
      if j > 0 {
        assert c[j] == c'[j - 1];
      }
    }
    forall j | 0 <= j < |c| - 1
      ensures U16(r, SectorOffset(c[j]) + 4) == 0
    {
      if j > 0 {
        assert c[j] == c'[j - 1];
      }
    }
    assert c[|c| - 1] == c'[|c'| - 1];
  }

  /** What the loop of `ryfs_add` leaves behind from iteration `k` of `n`
      when it runs to the end, starting from `img` at sector `s0` and ending
      with `r`: a chain of `n - k` segments from `s0` whose payloads read back
      as the rest of the file, in sectors that were free, are now in use and
      are distinct, formatted with the file's trailing size on the last
      segment; and nothing kept changes. */
  ghost predicate ChainWritten(img: seq<byte>, r: seq<byte>, bs: nat, data: seq<byte>, k: nat, n: nat, s0: nat)
  {
    && k < n
    && ChainData(r, data, k, n, s0)
    && Preserved(img, r, bs)
    && PayloadSize * (n - 1) <= |data|
    && var c := ChainSectors(r, s0, n - k);
    && Fresh(img, r, bs, c)
    && Distinct(c)
    && SegmentsFormatted(r, c, |data| - PayloadSize * (n - 1))
  }

  /** The last iteration writes a one-segment chain. */
  lemma LastSegmentWritten(img: seq<byte>, bs: nat, data: seq<byte>, k: nat, n: nat, cur: nat, r: seq<byte>)
    requires n == FileSegments(|data|) && k == n - 1
    requires Reserved(img, bs)
    requires FindFreeSector(img, bs) == Some(cur)
    requires |data| - Min(PayloadSize * k, |data|) < 65536
    requires r == WriteSegment(MarkUsed(img, cur), cur, 0, |data| - Min(PayloadSize * k, |data|), Chunk(data, k))
    ensures ChainWritten(img, r, bs, data, k, n, cur)
  {
    var chunk := Chunk(data, k);
    var trailing := |data| - Min(PayloadSize * k, |data|);
    LastTrailing(data, k, n);
    Allocated(img, bs, cur);
    StepPreserves(img, bs, cur, 0, trailing, chunk, r);
    StepWrites(img, bs, cur, 0, trailing, chunk, r);
    LastSegmentFacts(img, r, bs, data, k, n, cur, trailing, chunk);
  }

  /** The trailing size the last iteration writes is what is left of the
      file after `n - 1` full segments. */
  lemma LastTrailing(data: seq<byte>, k: nat, n: nat)
    requires n == FileSegments(|data|) && k == n - 1
    ensures PayloadSize * k <= |data|
    ensures |data| - Min(PayloadSize * k, |data|) == |data| - PayloadSize * (n - 1) <= PayloadSize
  {
  }

  lemma LastSegmentFacts(img: seq<byte>, r: seq<byte>, bs: nat, data: seq<byte>, k: nat, n: nat, cur: nat, trailing: nat, chunk: seq<byte>)
    requires n == FileSegments(|data|) && k == n - 1
    requires PayloadSize * k <= |data| && trailing == |data| - PayloadSize * (n - 1) <= PayloadSize
    requires chunk == Chunk(data, k)
    requires bs + 2 <= cur < SectorsPerBitmapSector * bs && !Used(img, cur) && Used(r, cur)
    requires Preserved(img, r, bs)
    requires SegmentAt(r, cur, 0, trailing, chunk)
    ensures ChainWritten(img, r, bs, data, k, n, cur)
  {
    SegmentFields(r, cur, 0, trailing, chunk);
    LastChainData(r, data, k, n, cur, trailing, chunk);
    LastChainSectors(img, r, bs, cur, trailing, chunk);
  }

  /** The one-segment chain the last iteration writes is fresh and
      formatted. */
  lemma LastChainSectors(img: seq<byte>, r: seq<byte>, bs: nat, cur: nat, trailing: nat, chunk: seq<byte>)
    requires trailing <= PayloadSize && |chunk| <= PayloadSize
    requires bs + 2 <= cur < SectorsPerBitmapSector * bs && !Used(img, cur) && Used(r, cur)
    requires SegmentAt(r, cur, 0, trailing, chunk)
    ensures var c := ChainSectors(r, cur, 1); Fresh(img, r, bs, c) && Distinct(c) && SegmentsFormatted(r, c, trailing)
  {
    SegmentFields(r, cur, 0, trailing, chunk);
    assert ChainSectors(r, cur, 1) == [cur];
  }

  /** The last segment reads back as the rest of the file. */
  lemma LastChainData(r: seq<byte>, data: seq<byte>, k: nat, n: nat, cur: nat, trailing: nat, chunk: seq<byte>)
    requires n == FileSegments(|data|) && k == n - 1
    requires PayloadSize * k <= |data| && trailing == |data| - PayloadSize * (n - 1) <= PayloadSize
    requires chunk == Chunk(data, k)
    requires U16(r, SectorOffset(cur) + 4) == trailing
    requires Read(r, SectorOffset(cur) + 6, |chunk|) == chunk
    ensures ChainData(r, data, k, n, cur)
  {
    assert chunk == data[PayloadSize * k ..];
    assert ReadChain(r, cur, k, n) == Read(r, SectorOffset(cur) + 6, trailing) + ReadChain(r, U16(r, SectorOffset(cur) + 2), k + 1, n);
  }

  /** An earlier iteration puts one segment in front of the chain the later
      ones write. */
  lemma SegmentPrepended(img: seq<byte>, seg: seq<byte>, r: seq<byte>, bs: nat, data: seq<byte>, k: nat, n: nat, cur: nat, next: nat)
    requires n == FileSegments(|data|) && k < n - 1
    requires StepTaken(img, seg, bs, data, k, cur, next)
    requires ChainWritten(seg, r, bs, data, k + 1, n, next)
    ensures ChainWritten(img, r, bs, data, k, n, cur)
  {
    var chunk := Chunk(data, k);
    var last := |data| - PayloadSize * (n - 1);
    var c' := ChainSectors(r, next, n - k - 1);
    SegmentKept(seg, r, bs, cur, next, 0, chunk);
    SegmentFields(r, cur, next, 0, chunk);
    assert |chunk| == PayloadSize;
    DataCons(r, data, k, n, cur, next);
    PreservedTrans(img, seg, r, bs);
    assert ChainSectors(r, cur, n - k) == [cur] + c';
    FreshCons(img, seg, r, bs, cur, c');
    assert forall j :: 0 <= j < |c'| ==> !Used(seg, c'[j]);
    DistinctCons(cur, c');
    SegmentsFormattedCons(r, cur, c', last);
  }

  /** One non-final iteration took sector `cur` of `img`, linked it to
      `next` and left `seg`. */
  ghost predicate StepTaken(img: seq<byte>, seg: seq<byte>, bs: nat, data: seq<byte>, k: nat, cur: nat, next: nat)
  {
    && bs + 2 <= cur < SectorsPerBitmapSector * bs && !Used(img, cur) && Used(seg, cur)
    && next < 65536
    && Preserved(img, seg, bs)
    && (forall o {:trigger Kept(seg, bs, o)} :: Kept(img, bs, o) ==> Kept(seg, bs, o))
    && SegmentAt(seg, cur, next, 0, Chunk(data, k))
  }

  /** One iteration of the loop of `ryfs_add` that does not raise. */
  lemma WriteChainUnfold(img: seq<byte>, bs: nat, data: seq<byte>, k: nat, n: nat, r: seq<byte>)
    requires n == FileSegments(|data|) && k < n
    requires WriteChain(img, bs, data, k, n) == Outcome(Ok(()), r)
    ensures FindFreeSector(img, bs).Some?
    ensures PayloadSize * (n - 1) <= |data|
    ensures var marked := MarkUsed(img, FindFreeSector(img, bs).value);
      k != n - 1 ==> FindFreeSector(marked, bs).Some? && FindFreeSector(marked, bs).value < 65536
    ensures var cur := FindFreeSector(img, bs).value;
      var marked := MarkUsed(img, cur);
      k != n - 1 ==>
        WriteChain(WriteSegment(marked, cur, FindFreeSector(marked, bs).value, 0, Chunk(data, k)), bs, data, k + 1, n)
          == Outcome(Ok(()), r)
    ensures var cur := FindFreeSector(img, bs).value;
      k == n - 1 ==> r == WriteSegment(MarkUsed(img, cur), cur, 0, |data| - Min(PayloadSize * k, |data|), Chunk(data, k))
  {
    assert WriteChain(img, bs, data, k, n) == Iteration(img, bs, data, k, n);
    if k == n - 1 {
      var cur := FindFreeSector(img, bs).value;
      var last := WriteSegment(MarkUsed(img, cur), cur, 0, |data| - Min(PayloadSize * k, |data|), Chunk(data, k));
      assert WriteChain(last, bs, data, n, n) == Outcome(Ok(()), last);
    }
  }

  /** A non-final iteration that does not raise: the sector it takes, the
      sector it links to and the image it leaves for the next iteration. */
  lemma StepParts(img: seq<byte>, bs: nat, data: seq<byte>, k: nat, n: nat, r: seq<byte>)
    returns (cur: nat, next: nat, seg: seq<byte>)
    requires n == FileSegments(|data|) && k < n - 1
    requires Reserved(img, bs)
    requires WriteChain(img, bs, data, k, n) == Outcome(Ok(()), r)
    ensures FindFreeSector(img, bs) == Some(cur)
    ensures FindFreeSector(seg, bs) == Some(next) && Reserved(seg, bs)
    ensures StepTaken(img, seg, bs, data, k, cur, next)
    ensures WriteChain(seg, bs, data, k + 1, n) == Outcome(Ok(()), r)
  {
    WriteChainUnfold(img, bs, data, k, n, r);
    cur := FindFreeSector(img, bs).value;
    var marked := MarkUsed(img, cur);
    next := FindFreeSector(marked, bs).value;
    seg := WriteSegment(marked, cur, next, 0, Chunk(data, k));
    Allocated(img, bs, cur);
    StepPreserves(img, bs, cur, next, 0, Chunk(data, k), seg);
    StepWrites(img, bs, cur, next, 0, Chunk(data, k), seg);
  }

  /** When the loop of `ryfs_add` runs to the end from iteration `k`, it
      writes a chain starting at the sector the allocator offers first. */
  lemma {:induction false} WriteChainSpec(img: seq<byte>, bs: nat, data: seq<byte>, k: nat, n: nat, r: seq<byte>)
    requires n == FileSegments(|data|) && k < n
    requires Reserved(img, bs)
    requires WriteChain(img, bs, data, k, n) == Outcome(Ok(()), r)
    ensures FindFreeSector(img, bs).Some?
    ensures ChainWritten(img, r, bs, data, k, n, FindFreeSector(img, bs).value)
    decreases n - k, 1
  {
    if k != n - 1 {
      var cur, next, seg := StepParts(img, bs, data, k, n, r);
      WriteChainStep(img, seg, r, bs, data, k, n, cur, next);
    } else {
      WriteChainLast(img, bs, data, k, n, r);
    }
  }

  /** A non-final iteration, then the rest of the loop. */
  lemma {:induction false} WriteChainStep(img: seq<byte>, seg: seq<byte>, r: seq<byte>, bs: nat, data: seq<byte>, k: nat, n: nat, cur: nat, next: nat)
    requires n == FileSegments(|data|) && k < n - 1
    requires FindFreeSector(seg, bs) == Some(next) && Reserved(seg, bs)
    requires StepTaken(img, seg, bs, data, k, cur, next)
    requires WriteChain(seg, bs, data, k + 1, n) == Outcome(Ok(()), r)
    ensures ChainWritten(img, r, bs, data, k, n, cur)
    decreases n - k, 0
  {
    WriteChainSpec(seg, bs, data, k + 1, n, r);
    SegmentPrepended(img, seg, r, bs, data, k, n, cur, next);
  }

  /** The final iteration. */
  lemma WriteChainLast(img: seq<byte>, bs: nat, data: seq<byte>, k: nat, n: nat, r: seq<byte>)
    requires n == FileSegments(|data|) && k == n - 1
    requires Reserved(img, bs)
    requires WriteChain(img, bs, data, k, n) == Outcome(Ok(()), r)
    ensures FindFreeSector(img, bs).Some?
    ensures ChainWritten(img, r, bs, data, k, n, FindFreeSector(img, bs).value)
  {
    WriteChainUnfold(img, bs, data, k, n, r);
    LastTrailing(data, k, n);
    LastSegmentWritten(img, bs, data, k, n, FindFreeSector(img, bs).value, r);
  }
}
