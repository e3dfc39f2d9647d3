/** `ryfs_create`: formatting an image (ryfs.py:14-48). */
module Format {
  import opened Outcomes
  import opened Bytes
  import opened Bits
  import opened Layout
  import opened Bitmap
  import opened Directory

  /** The bitmap word `ryfs_create` builds (ryfs.py:44-47): bits 0 and 1 for
      the boot and directory sectors, then bit `i + 2` for each bitmap sector
      `i`. */
  function InitialBitmap(bs: nat): (r: nat)
    ensures r < Pow2(bs + 2)
  {
    if bs == 0 then 3
    else
      OrBound(InitialBitmap(bs - 1), Pow2(bs + 1), bs + 2);
      Or(InitialBitmap(bs - 1), Pow2(bs + 1))
  }

  /** The initial bitmap marks exactly the sectors `0 .. bs + 1`. */
  lemma {:induction false} InitialBitmapBits(bs: nat, j: nat)
    ensures Bit(InitialBitmap(bs), j) <==> j < bs + 2
  {
    if bs == 0 {
      assert 3 == Pow2(2) - 1;
      if j < 2 {
        LowOnes(2, j);
      } else {
        assert Bit(3, j) <==> Bit(0, j - 2) by {
          assert Bit(3, j) <==> Bit(1, j - 1);
        }
        ZeroBits(j - 2);
      }
    } else {
      InitialBitmapBits(bs - 1, j);
      OrBits(InitialBitmap(bs - 1), Pow2(bs + 1), j);
      Pow2Bits(bs + 1, j);
    }
  }

  lemma {:induction false} InitialBitmapBound(bs: nat)
    ensures InitialBitmap(bs) < Pow2(bs + 2)
  {
    if bs == 0 {
    } else {
      InitialBitmapBound(bs - 1);
      Pow2Monotone(bs + 1, bs + 2);
      OrBound(InitialBitmap(bs - 1), Pow2(bs + 1), bs + 2);
    }
  }

  /** The initial bitmap is the number whose `bs + 2` low bits are set. */
  lemma InitialBitmapValue(bs: nat)
    ensures InitialBitmap(bs) == Pow2(bs + 2) - 1
  {
    InitialBitmapBound(bs);
    forall j | 0 <= j < bs + 2
      ensures Bit(InitialBitmap(bs), j) <==> Bit(Pow2(bs + 2) - 1, j)
    {
      InitialBitmapBits(bs, j);
      LowOnes(bs + 2, j);
    }
    BitsDetermine(InitialBitmap(bs), Pow2(bs + 2) - 1, bs + 2);
  }

  /** The three header fields fit their `struct.pack` formats: the bitmap
      sector count one byte, the sector count two, the bitmap word four.
      Within the 16 MiB limit they always do. */
  function Fits(size: nat): (b: bool)
    ensures size <= MaxImageSize ==> b
  {
    FitsBelowLimit(size);
    && BitmapSectors(ImageSectors(size)) < Pow256(1)
    && ImageSectors(size) < Pow256(2)
    && InitialBitmap(BitmapSectors(ImageSectors(size))) < Pow256(4)
  }

  lemma FitsBelowLimit(size: nat)
    ensures size <= MaxImageSize ==>
      && BitmapSectors(ImageSectors(size)) < Pow256(1)
      && ImageSectors(size) < Pow256(2)
      && InitialBitmap(BitmapSectors(ImageSectors(size))) < Pow256(4)
  {
    if size <= MaxImageSize {
      var bs := BitmapSectors(ImageSectors(size));
      assert Pow256(1) == 256 && Pow256(2) == 65536 && Pow256(4) == 4294967296;
      InitialBitmapValue(bs);
      Pow2Monotone(bs + 2, 10);
      assert Pow2(10) == 1024;
    }
  }

  /** The file zeroed over `size` bytes, then the boot sector file's first
      512 bytes over its start (ryfs.py:21-27). */
  function Booted(img: seq<byte>, size: nat, boot: Option<seq<byte>>): (r: seq<byte>)
    ensures |r| >= |img| && |r| >= size
    ensures boot.None? ==> forall o :: 0 <= o < size ==> r[o] == 0
    ensures forall o :: size <= o < |img| && SectorSize <= o ==> r[o] == img[o]
  {
    var zeroed := Write(img, 0, Zeros(size));
    if boot.Some? then Write(zeroed, 0, Read(boot.value, 0, SectorSize)) else zeroed
  }

  /** The image `ryfs_create()` leaves when none of its steps raises: the
      bitmap sector count at 512, the version bytes `01 'R' 'Y'`, the
      sector count, the label, and the initial bitmap word at 1024, written
      in that order over the booted file. */
  function Formatted(img: seq<byte>, size: nat, text: seq<byte>, boot: Option<seq<byte>>): (r: seq<byte>)
    requires Fits(size)
    ensures |r| == Max(Max(|img|, size), Max(BitmapOffset + 4, LabelOffset + |text|))
  {
    var sectors := ImageSectors(size);
    var bs := BitmapSectors(sectors);
    var counted := Write(Write(Booted(img, size, boot), HeaderOffset, ToLE(bs, 1)), MagicOffset, [1, 82, 89]);
    var labelled := Write(Write(counted, TotalSectorsOffset, ToLE(sectors, 2)), LabelOffset, text);
    Write(labelled, BitmapOffset, ToLE(InitialBitmap(bs), 4))
  }

  /** `ryfs_create()` for an image of `size` bytes labelled `volumeLabel`, with the
      optional boot sector file `boot` (ryfs.py:14-48). The file is
      overwritten with `size` zero bytes, not truncated; each `struct.pack`
      and `str_to_bytearray` that raises ends the run with what was written
      so far. */
  function Create(img: seq<byte>, size: nat, volumeLabel: string, boot: Option<seq<byte>>): (o: Outcome<()>)
    ensures o.result.Ok? <==> Fits(size) && StrToBytes(volumeLabel).Some?
    ensures size <= MaxImageSize ==> (o.result.Ok? <==> forall k :: 0 <= k < |volumeLabel| ==> volumeLabel[k] as int < 256)
    ensures o.result.Ok? ==> o.image == Formatted(img, size, StrToBytes(volumeLabel).value, boot)
    ensures o.result.Err? ==> o.result.error == Crashed
  {
    var sectors := ImageSectors(size);
    var bs := BitmapSectors(sectors);
    var booted := Booted(img, size, boot);
    match Pack(bs, 1)
    case None => Outcome(Err(Crashed), booted)
    case Some(count) =>
      var counted := Write(Write(booted, HeaderOffset, count), MagicOffset, [1, 82, 89]);
      match Pack(sectors, 2)
      case None => Outcome(Err(Crashed), counted)
      case Some(total) =>
        var sized := Write(counted, TotalSectorsOffset, total);
        match StrToBytes(volumeLabel)
        case None => Outcome(Err(Crashed), sized)
        case Some(text) =>
          match Pack(InitialBitmap(bs), 4)
          case None => Outcome(Err(Crashed), Write(sized, LabelOffset, text))
          case Some(word) => Outcome(Ok(()), Formatted(img, size, text, boot))
  }

  /** Every byte of a formatted image: the bitmap word, the label, the
      sector count, the version bytes, the bitmap sector count, the boot
      sector, the zeros, and past `size` the file as it was. */
  lemma CreateView(img: seq<byte>, size: nat, text: seq<byte>, boot: Option<seq<byte>>, o: int)
    requires Fits(size)
    ensures At(Formatted(img, size, text, boot), o) ==
        if BitmapOffset <= o < BitmapOffset + 4 then ToLE(InitialBitmap(BitmapSectors(ImageSectors(size))), 4)[o - BitmapOffset]
        else if LabelOffset <= o < LabelOffset + |text| then text[o - LabelOffset]
        else if TotalSectorsOffset <= o < TotalSectorsOffset + 2 then LE16(ImageSectors(size))[o - TotalSectorsOffset]
        else if MagicOffset <= o < MagicOffset + 3 then [1, 82, 89][o - MagicOffset]
        else if o == HeaderOffset then BitmapSectors(ImageSectors(size))
        else if boot.Some? && 0 <= o < Min(|boot.value|, SectorSize) then boot.value[o]
        else if 0 <= o < size then 0
        else At(img, o)
  {
    assert Pow256(1) == 256 && Pow256(2) == 65536;
    assert ToLE(BitmapSectors(ImageSectors(size)), 1) == [BitmapSectors(ImageSectors(size))];
    BootedAt(img, size, boot, o);
    WriteAt(Booted(img, size, boot), HeaderOffset, ToLE(BitmapSectors(ImageSectors(size)), 1), o);
    WriteAt(Write(Booted(img, size, boot), HeaderOffset, ToLE(BitmapSectors(ImageSectors(size)), 1)),
      MagicOffset, [1, 82, 89], o);
    WriteAt(Write(Write(Booted(img, size, boot), HeaderOffset, ToLE(BitmapSectors(ImageSectors(size)), 1)),
      MagicOffset, [1, 82, 89]), TotalSectorsOffset, ToLE(ImageSectors(size), 2), o);
    WriteAt(Write(Write(Write(Booted(img, size, boot), HeaderOffset, ToLE(BitmapSectors(ImageSectors(size)), 1)),
      MagicOffset, [1, 82, 89]), TotalSectorsOffset, ToLE(ImageSectors(size), 2)), LabelOffset, text, o);
    WriteAt(Write(Write(Write(Write(Booted(img, size, boot), HeaderOffset, ToLE(BitmapSectors(ImageSectors(size)), 1)),
      MagicOffset, [1, 82, 89]), TotalSectorsOffset, ToLE(ImageSectors(size), 2)), LabelOffset, text),
      BitmapOffset, ToLE(InitialBitmap(BitmapSectors(ImageSectors(size))), 4), o);
  }

  /** The booted file at one offset. */
  lemma BootedAt(img: seq<byte>, size: nat, boot: Option<seq<byte>>, o: int)
    ensures At(Booted(img, size, boot), o) ==
        if boot.Some? && 0 <= o < Min(|boot.value|, SectorSize) then boot.value[o]
        else if 0 <= o < size then 0
        else At(img, o)
  {
    WriteAt(img, 0, Zeros(size), o);
    if boot.Some? {
      WriteAt(Write(img, 0, Zeros(size)), 0, Read(boot.value, 0, SectorSize), o);
    }
  }

  /** A formatted image carries the bitmap sector count at 512, the version
      bytes `01 'R' 'Y'`, the sector count and the label, and a bitmap
      whose first 32 bits mark exactly the boot, directory and bitmap
      sectors. */
  lemma CreateHeader(img: seq<byte>, size: nat, text: seq<byte>, boot: Option<seq<byte>>)
    requires size <= MaxImageSize && |text| <= MaxLabelLength
    ensures At(Formatted(img, size, text, boot), HeaderOffset) == BitmapSectors(ImageSectors(size))
    ensures At(Formatted(img, size, text, boot), MagicOffset) == 1
    ensures At(Formatted(img, size, text, boot), MagicOffset + 1) == 82
    ensures At(Formatted(img, size, text, boot), MagicOffset + 2) == 89
    ensures U16(Formatted(img, size, text, boot), TotalSectorsOffset) == ImageSectors(size)
    ensures Read(Formatted(img, size, text, boot), LabelOffset, |text|) == text
    ensures FirstWordMarks(Formatted(img, size, text, boot), BitmapSectors(ImageSectors(size)))
  {
    var r := Formatted(img, size, text, boot);
    CreateView(img, size, text, boot, HeaderOffset);
    CreateView(img, size, text, boot, MagicOffset);
    CreateView(img, size, text, boot, MagicOffset + 1);
    CreateView(img, size, text, boot, MagicOffset + 2);
    CreateView(img, size, text, boot, TotalSectorsOffset);
    CreateView(img, size, text, boot, TotalSectorsOffset + 1);
    forall k | 0 <= k < |text|
      ensures At(r, LabelOffset + k) == text[k]
    {
      CreateView(img, size, text, boot, LabelOffset + k);
    }
    ReadIs(r, LabelOffset, text);
    CreateMarks(img, size, text, boot);
  }

  /** The first 32 bits of a formatted image's bitmap mark exactly the
      boot, directory and bitmap sectors. */
  lemma CreateMarks(img: seq<byte>, size: nat, text: seq<byte>, boot: Option<seq<byte>>)
    requires size <= MaxImageSize && |text| <= MaxLabelLength
    ensures FirstWordMarks(Formatted(img, size, text, boot), BitmapSectors(ImageSectors(size)))
  {
    CreateWord(img, size, text, boot);
    WordMarks(Formatted(img, size, text, boot), BitmapSectors(ImageSectors(size)));
  }

  /** A formatted image has its reserved sectors marked. */
  lemma CreateReserves(img: seq<byte>, size: nat, text: seq<byte>, boot: Option<seq<byte>>)
    requires size <= MaxImageSize && |text| <= MaxLabelLength
    ensures Reserved(Formatted(img, size, text, boot), BitmapSectors(ImageSectors(size)))
  {
    CreateWord(img, size, text, boot);
    WordAllocates(Formatted(img, size, text, boot), BitmapSectors(ImageSectors(size)));
  }

  /** On a formatted image the allocator offers the first sector after the
      bitmap. */
  lemma CreateAllocates(img: seq<byte>, size: nat, text: seq<byte>, boot: Option<seq<byte>>)
    requires size <= MaxImageSize && |text| <= MaxLabelLength
    ensures FindFreeSector(Formatted(img, size, text, boot), BitmapSectors(ImageSectors(size))) == Some(BitmapSectors(ImageSectors(size)) + 2)
  {
    var r, bs := Formatted(img, size, text, boot), BitmapSectors(ImageSectors(size));
    CreateWord(img, size, text, boot);
    assert 1 <= bs <= 8 && InitialBitmap(bs) < Pow256(4) && WordAt(r, ToLE(InitialBitmap(bs), 4));
    WordAllocates(r, bs);
  }

  /** The four bytes of the bitmap word a formatted image starts its bitmap
      with. */
  lemma CreateWord(img: seq<byte>, size: nat, text: seq<byte>, boot: Option<seq<byte>>)
    requires size <= MaxImageSize && |text| <= MaxLabelLength
    ensures 1 <= BitmapSectors(ImageSectors(size)) <= 8
    ensures InitialBitmap(BitmapSectors(ImageSectors(size))) < Pow256(4)
    ensures WordAt(Formatted(img, size, text, boot), ToLE(InitialBitmap(BitmapSectors(ImageSectors(size))), 4))
  {
    CreateView(img, size, text, boot, BitmapOffset);
    CreateView(img, size, text, boot, BitmapOffset + 1);
    CreateView(img, size, text, boot, BitmapOffset + 2);
    CreateView(img, size, text, boot, BitmapOffset + 3);
  }

  /** The first four bitmap bytes of `r` are `w`. */
  ghost predicate WordAt(r: seq<byte>, w: seq<byte>)
    requires |w| == 4
  {
    At(r, BitmapOffset) == w[0] && At(r, BitmapOffset + 1) == w[1] && At(r, BitmapOffset + 2) == w[2] && At(r, BitmapOffset + 3) == w[3]
  }

  /** The first 32 bits of the bitmap mark exactly sectors `0 .. bs + 1`. */
  ghost predicate FirstWordMarks(r: seq<byte>, bs: nat)
  {
    forall t :: 0 <= t < 32 ==> (Used(r, t) <==> t < bs + 2)
  }

  /** A bitmap starting with the initial word marks exactly sectors
      `0 .. bs + 1` among its first 32. */
  lemma WordMarks(r: seq<byte>, bs: nat)
    requires 1 <= bs <= 8 && InitialBitmap(bs) < Pow256(4)
    requires WordAt(r, ToLE(InitialBitmap(bs), 4))
    ensures FirstWordMarks(r, bs)
  {
    forall t | 0 <= t < 32
      ensures Used(r, t) <==> t < bs + 2
    {
      assert At(r, BitmapOffset + t / 8) == ToLE(InitialBitmap(bs), 4)[t / 8];
      EncodedBits(InitialBitmap(bs), 4, t);
      InitialBitmapBits(bs, t);
    }
  }

  /** A bitmap starting with the initial word: the reserved sectors are
      marked and the allocator offers the first sector after the bitmap. */
  lemma WordAllocates(r: seq<byte>, bs: nat)
    requires 1 <= bs <= 8 && InitialBitmap(bs) < Pow256(4)
    requires WordAt(r, ToLE(InitialBitmap(bs), 4))
    ensures Reserved(r, bs) && FindFreeSector(r, bs) == Some(bs + 2)
  {
    WordMarks(r, bs);
    FirstFree(r, bs);
  }

  /** A bitmap whose first 32 bits mark exactly sectors `0 .. bs + 1`. */
  lemma FirstFree(r: seq<byte>, bs: nat)
    requires 1 <= bs <= 8
    requires FirstWordMarks(r, bs)
    ensures Reserved(r, bs) && FindFreeSector(r, bs) == Some(bs + 2)
  {
    assert !Used(r, bs + 2);
  }

  /** Formatted over an empty file, or with a size that covers the
      directory, the image lists no files. Formatted smaller over an
      existing image, the old directory entries past `size` remain. */
  lemma CreateListsNothing(img: seq<byte>, size: nat, text: seq<byte>, boot: Option<seq<byte>>)
    requires size <= MaxImageSize && |text| <= MaxLabelLength
    requires size >= DirectoryEnd || img == []
    ensures List(Formatted(img, size, text, boot)) == []
  {
    var r := Formatted(img, size, text, boot);
    forall o | DirectoryOffset <= o < DirectoryOffset + 6 * EntryCount
      ensures r[o] == 0
    {
      CreateView(img, size, text, boot, o);
    }
    ListFromZeros(r, DirectoryOffset, EntryCount);
  }

  /** The default 1,474,560-byte image has 2880 sectors, one bitmap sector
      and bitmap byte `0b111`. */
  lemma CreateDefault(img: seq<byte>, text: seq<byte>, boot: Option<seq<byte>>)
    requires |text| <= MaxLabelLength
    ensures At(Formatted(img, DefaultImageSize, text, boot), HeaderOffset) == 1
    ensures U16(Formatted(img, DefaultImageSize, text, boot), TotalSectorsOffset) == 2880
    ensures At(Formatted(img, DefaultImageSize, text, boot), BitmapOffset) == 7
  {
    assert ImageSectors(DefaultImageSize) == 2880;
    assert BitmapSectors(2880) == 1;
    assert InitialBitmap(1) == 7 by {
      assert Pow2(2) == 4;
      assert Or(3, 4) == 1 + 2 * Or(1, 2);
      assert Or(1, 2) == 1 + 2 * Or(0, 1);
      assert Or(0, 1) == 1 + 2 * Or(0, 0);
    }
    assert ToLE(7, 4)[0] == 7;
    CreateHeader(img, DefaultImageSize, text, boot);
    CreateWord(img, DefaultImageSize, text, boot);
  }
}
