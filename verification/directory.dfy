/** The flat directory: 30 slots of 16 bytes from byte 528, each
    `first_sector:u16 sector_count:u16 name[8] ext[3] 0`. A slot is free when
    its first two bytes are zero. */
module Directory {
  import opened Outcomes
  import opened Bytes
  import opened Layout

  const Space: byte := 32

  /** `' ' * n`, empty when `n` is not positive. */
  function Spaces(n: int): (r: seq<byte>)
    ensures |r| == Max(n, 0)
    ensures forall k :: 0 <= k < |r| ==> r[k] == Space
  {
    if n <= 0 then [] else [Space] + Spaces(n - 1)
  }

  /** The name field of an entry: the name padded with spaces to 8 bytes,
      the extension and a zero (ryfs.py:237-242, 79-83). */
  function EntryKey(name: seq<byte>, ext: seq<byte>): (r: seq<byte>)
    requires |name| <= MaxNameLength
    ensures |r| == MaxNameLength + |ext| + 1
  {
    name + Spaces(MaxNameLength - |name|) + ext + [0]
  }

  /** Slot `i` holds `key` in its name field. */
  predicate Matches(img: seq<byte>, i: nat, key: seq<byte>)
  {
    Read(img, SlotOffset(i) + 4, 12) == key
  }

  /** Slot `i` is free: its first two bytes read as zero. */
  predicate IsFree(img: seq<byte>, i: nat)
  {
    Read(img, SlotOffset(i), 2) == [0, 0]
  }

  /** The slot an entry offset belongs to. */
  function SlotIndex(o: nat): int
  {
    (o - DirectoryOffset) / EntrySize
  }

  /** The loop of `ryfs_find_entry` from slot `i`. */
  function FindKey(img: seq<byte>, key: seq<byte>, i: nat): (r: Option<nat>)
    requires i <= EntryCount
    decreases EntryCount - i
    ensures r.None? <==> forall j :: i <= j < EntryCount ==> !Matches(img, j, key)
    ensures r.Some? ==> i <= r.value < EntryCount && Matches(img, r.value, key)
    ensures r.Some? ==> forall j :: i <= j < r.value ==> !Matches(img, j, key)
  {
    if i == EntryCount then None
    else if Matches(img, i, key) then Some(i)
    else FindKey(img, key, i + 1)
  }

  /** `ryfs_find_entry(name, ext)` (ryfs.py:233-252): `tell() - 16` after
      the 12-byte read that matched, which is the first matching slot's
      offset. The read stops at the end of the file, so when the file ends
      inside a slot's name field and a key shorter than 12 bytes matches
      what is left, the offset lands that many bytes before the slot. After
      a short read that does not match, every later read is past the end
      and empty, as the model's reads are. */
  function FindEntry(img: seq<byte>, name: seq<byte>, ext: seq<byte>): (r: Option<nat>)
    requires |name| <= MaxNameLength
    ensures r.None? <==> forall j :: 0 <= j < EntryCount ==> !Matches(img, j, EntryKey(name, ext))
    ensures r.Some? ==> EntrySlot(img, name, ext).Some? && |ext| <= MaxExtLength
    ensures r.Some? ==> r.value + MaxExtLength == SlotOffset(EntrySlot(img, name, ext).value) + |ext|
    ensures r.Some? && |ext| < MaxExtLength ==> |img| == r.value + EntrySize
    ensures r.Some? && |img| >= DirectoryEnd ==> |ext| == MaxExtLength
  {
    match EntrySlot(img, name, ext)
    case None => None
    case Some(i) =>
      Some(Tell(img, SlotOffset(i) + 4, 12) - 16)
  }

  /** The slot whose name field `ryfs_find_entry` matches: the first one. */
  function EntrySlot(img: seq<byte>, name: seq<byte>, ext: seq<byte>): (r: Option<nat>)
    requires |name| <= MaxNameLength
    ensures r.None? <==> forall j :: 0 <= j < EntryCount ==> !Matches(img, j, EntryKey(name, ext))
    ensures r.Some? ==> r.value < EntryCount && Matches(img, r.value, EntryKey(name, ext))
    ensures r.Some? ==> forall j :: 0 <= j < r.value ==> !Matches(img, j, EntryKey(name, ext))
  {
    FindKey(img, EntryKey(name, ext), 0)
  }

  /** A 541-byte file whose last bytes are the key of `ABCDEFGH` with an
      empty extension, starting at slot 0's name field: the key matches the
      9 bytes the read returns, and the entry is taken to start at 525, 3
      bytes before slot 0. */
  lemma TruncatedDirectoryMatch()
    ensures FindEntry(Zeros(532) + [65, 66, 67, 68, 69, 70, 71, 72, 0], [65, 66, 67, 68, 69, 70, 71, 72], []) == Some(525)
  {
    var img := Zeros(532) + [65, 66, 67, 68, 69, 70, 71, 72, 0];
    var key := EntryKey([65, 66, 67, 68, 69, 70, 71, 72], []);
    assert Read(img, SlotOffset(0) + 4, 12) == key;
  }

  /** An extension shorter than three bytes makes the key shorter than the
      12 bytes compared, so no entry is ever found for it. */
  lemma ShortExtensionNeverFound(img: seq<byte>, name: seq<byte>, ext: seq<byte>)
    requires |img| >= DirectoryEnd
    requires |name| <= MaxNameLength && |ext| < MaxExtLength
    ensures FindEntry(img, name, ext).None?
  {
    forall j | 0 <= j < EntryCount
      ensures !Matches(img, j, EntryKey(name, ext))
    {
      assert |Read(img, SlotOffset(j) + 4, 12)| == 12;
    }
  }

  /** The loop of `ryfs_find_free_entry` from slot `i`. */
  function FindFree(img: seq<byte>, i: nat): (r: Option<nat>)
    requires i <= EntryCount
    decreases EntryCount - i
    ensures r.None? <==> forall j :: i <= j < EntryCount ==> !IsFree(img, j)
    ensures r.Some? ==> i <= r.value < EntryCount && IsFree(img, r.value)
    ensures r.Some? ==> forall j :: i <= j < r.value ==> !IsFree(img, j)
  {
    if i == EntryCount then None
    else if IsFree(img, i) then Some(i)
    else FindFree(img, i + 1)
  }

  /** `ryfs_find_free_entry()` (ryfs.py:215-229): the offset of the first
      slot whose first two bytes are zero. */
  function FindFreeEntry(img: seq<byte>): (r: Option<nat>)
    ensures r.None? <==> forall j :: 0 <= j < EntryCount ==> !IsFree(img, j)
    ensures r.Some? ==> 0 <= SlotIndex(r.value) < EntryCount && r.value == SlotOffset(SlotIndex(r.value))
    ensures r.Some? ==> IsFree(img, SlotIndex(r.value))
    ensures r.Some? ==> forall j :: 0 <= j < SlotIndex(r.value) ==> !IsFree(img, j)
  {
    match FindFree(img, 0)
    case None => None
    case Some(i) =>
      assert SlotIndex(SlotOffset(i)) == i;
      Some(SlotOffset(i))
  }

  /** The loop of `ryfs_list` at offset `pos` with `remaining` iterations
      left: past a slot it takes to be in use it moves 16 bytes on, past one
      it takes to be free only 6. */
  function ListFrom(img: seq<byte>, pos: nat, remaining: nat): (r: seq<seq<byte>>)
    ensures |r| <= remaining
    ensures forall k :: 0 <= k < |r| ==> |r[k]| <= 12
    decreases remaining
  {
    if remaining == 0 then []
    else if Read(img, pos, 2) != [0, 0] then [Read(img, pos + 4, 12)] + ListFrom(img, pos + 16, remaining - 1)
    else ListFrom(img, pos + 6, remaining - 1)
  }

  /** `ryfs_list()` (ryfs.py:184-192): the name fields it prints. */
  function List(img: seq<byte>): (r: seq<seq<byte>>)
    ensures |r| <= EntryCount
    ensures forall k :: 0 <= k < |r| ==> |r[k]| <= 12
  {
    ListFrom(img, DirectoryOffset, EntryCount)
  }

  /** Over a zeroed stretch of the file the listing loop prints nothing. */
  lemma {:induction false} ListFromZeros(img: seq<byte>, pos: nat, m: nat)
    requires |img| >= pos + 6 * m
    requires forall o :: pos <= o < pos + 6 * m ==> img[o] == 0
    ensures ListFrom(img, pos, m) == []
    decreases m
  {
    if m > 0 {
      assert Read(img, pos, 2) == [0, 0];
      ListFromZeros(img, pos + 6, m - 1);
    }
  }

  /** The name fields of slots `i .. u-1`, in slot order. */
  function NameFields(img: seq<byte>, i: nat, u: nat): seq<seq<byte>>
    decreases u - i
  {
    if i >= u then [] else [Read(img, SlotOffset(i) + 4, 12)] + NameFields(img, i + 1, u)
  }

  /** From slot `i` on, with slots `i .. u-1` in use and everything after
      them zero, the loop prints the name fields of slots `i .. u-1`. */
  lemma {:induction false} ListFromUsedPrefix(img: seq<byte>, i: nat, u: nat)
    requires i <= u <= EntryCount
    requires |img| >= DirectoryEnd
    requires forall j :: i <= j < u ==> !IsFree(img, j)
    requires forall o :: SlotOffset(u) <= o < DirectoryEnd ==> img[o] == 0
    ensures ListFrom(img, SlotOffset(i), EntryCount - i) == NameFields(img, i, u)
    decreases u - i
  {
    if i == u {
      ListFromEnd(img, u);
    } else {
      assert !IsFree(img, i);
      ListFromUsedPrefix(img, i + 1, u);
      ListFromCons(img, i, u);
    }
  }

  /** One more slot in use in front of a listed stretch adds its name field
      in front. */
  lemma ListFromCons(img: seq<byte>, i: nat, u: nat)
    requires i < u <= EntryCount && !IsFree(img, i)
    requires ListFrom(img, SlotOffset(i + 1), EntryCount - (i + 1)) == NameFields(img, i + 1, u)
    ensures ListFrom(img, SlotOffset(i), EntryCount - i) == NameFields(img, i, u)
  {
    ListFromSlot(img, i);
  }

  /** Past the slots in use the loop prints nothing more. */
  lemma ListFromEnd(img: seq<byte>, u: nat)
    requires u <= EntryCount
    requires |img| >= DirectoryEnd
    requires forall o :: SlotOffset(u) <= o < DirectoryEnd ==> img[o] == 0
    ensures ListFrom(img, SlotOffset(u), EntryCount - u) == NameFields(img, u, u)
  {
    ListFromZeros(img, SlotOffset(u), EntryCount - u);
  }

  /** At a slot in use the loop prints its name field and moves on to the
      next slot. */
  lemma ListFromSlot(img: seq<byte>, i: nat)
    requires i < EntryCount && !IsFree(img, i)
    ensures ListFrom(img, SlotOffset(i), EntryCount - i)
      == [Read(img, SlotOffset(i) + 4, 12)] + ListFrom(img, SlotOffset(i + 1), EntryCount - (i + 1))
  {
    assert SlotOffset(i) + 16 == SlotOffset(i + 1);
  }

  /** When the slots in use are exactly the first `u` and the rest of the
      directory is zero, the listing is the name fields of those slots in
      slot order. */
  lemma ListUsedPrefix(img: seq<byte>, u: nat)
    requires u <= EntryCount
    requires |img| >= DirectoryEnd
    requires forall j :: 0 <= j < u ==> !IsFree(img, j)
    requires forall o :: SlotOffset(u) <= o < DirectoryEnd ==> img[o] == 0
    ensures List(img) == NameFields(img, 0, u)
  {
    ListFromUsedPrefix(img, 0, u);
  }

  /** A free slot ahead of one in use throws the loop out of step: with slot
      0 zeroed and a non-zero sector count in slot 1, the loop reads that
      count as the start of an entry, and the first line it prints is the 12
      bytes starting 6 bytes into slot 1 instead of slot 1's name field. */
  lemma ListMisreadsAfterFreeSlot(img: seq<byte>)
    requires |img| >= DirectoryEnd
    requires forall o :: SlotOffset(0) <= o < SlotOffset(1) ==> img[o] == 0
    requires img[SlotOffset(1) + 2] != 0
    ensures |List(img)| > 0 && List(img)[0] == Read(img, SlotOffset(1) + 6, 12)
  {
    assert Read(img, 528, 2) == [0, 0];
    assert Read(img, 534, 2) == [0, 0];
    assert Read(img, 540, 2) == [0, 0];
    assert Read(img, 546, 2) != [0, 0];
    assert List(img) == ListFrom(img, 546, 27);
  }
}
