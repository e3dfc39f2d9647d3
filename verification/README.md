# RYFSv1 image tool, modelled in Dafny

A model of `ryfs.py`, the management tool for RYFSv1 disk images, and proofs
about it. An RYFSv1 image is a sequence of 512-byte sectors:

- sector 0 is the boot sector;
- sector 1 holds the header at byte 512 and the 30-slot directory at 528;
- the bitmap starts at sector 2 (byte 1024), one bit per sector, lowest bit first;
- each file is a chain of segments `FF 00 next:u16 trailing:u16 payload[506]`.

The tool's operations are modelled as pure functions over the image file's
bytes: `create`, `add`, `remove`, `export` and `list`. So are the helpers
they share:

- `round_ceil` and `find_first_clear`;
- the bitmap updates and the allocator;
- the directory lookups.

Each operation returns an `Outcome`: the result (a value, or the error it
stopped with) and the file it leaves behind. The tool writes in place, so an
exception part-way through keeps what was already written.

A Python file object is modelled exactly:

- a read past the end returns fewer bytes;
- a write past the end extends the file with zeros;
- `At` is the zero-extended view that every `int.from_bytes` of a short read
  agrees with.

Modules, in dependency order:

- `Outcomes`, `Bytes` (`outcomes.dfy`, `bytes.dfy`): results, errors, the
  file view, little-endian packing, `str_to_bytearray`.
- `Bits` (`bits.dfy`): bits of naturals, `|`, `& ~`, `find_first_clear`.
- `Layout` (`layout.dfy`): the constants of the format, `round_ceil` and the
  sector and segment counts.
- `Bitmap` (`bitmap.dfy`): `ryfs_mark_used`, `ryfs_mark_free`,
  `ryfs_find_free_sector`.
- `Directory` (`directory.dfy`): the entry key, `ryfs_find_entry`,
  `ryfs_find_free_entry`, `ryfs_list`.
- `Chain` (`chain.dfy`): the segment writes and the chain loop of `ryfs_add`,
  the chain walks of `ryfs_export` and `ryfs_remove`, and the proof of what
  the add loop writes.
- `Format` (`format.dfy`): `ryfs_create` and the image it formats.
- `Files` (`files.dfy`): `ryfs_add`, `ryfs_remove`, `ryfs_export`.
- `Removal` (`removal.dfy`): what `ryfs_remove` does to the bitmap and the
  directory.
- `RoundTrip` (`roundtrip.dfy`): add followed by export returns the file.
- `Capacity` (`capacity.dfy`): when `add` succeeds, in terms of free
  slots and the number of sectors the bitmap marks free.
- `Utf8` (`utf8.dfy`): the UTF-8 decoding the tool applies to the stored
  label and to listed names.
- `Cli` (`cli.dfy`): the main block's checks and dispatch.

Where the format's prose documentation and the code differ, the model follows
the code:

- `ryfs_mark_free` wraps the byte index with `> 4096` and `% 4096`, where
  `ryfs_mark_used` uses `>= 512` and `% 512`. For sectors from 4096 on it
  therefore writes a different byte than the one holding the sector's bit,
  and it is not the inverse of `mark_used` there (`Bitmap.MarkFreeAfterMarkUsed`).
- Running out of sectors in the middle of `add` is not reported as
  exhausted storage: `None * 512` or `pack('<H', None)` raises. It is
  modelled as `Crashed`, with the partially written image.
- `create` zeroes only `size` bytes and does not truncate the file. On a
  longer existing file, old bytes past `size` remain, including old
  directory slots when `size` is below 1008 (`Format.CreateListsNothing`
  needs a size covering the directory, or an empty file).
- Names and labels are not restricted to ASCII. The label is written one
  byte per character but read back as UTF-8. A label character from U+0080
  to U+00FF therefore makes every later action on that image stop at the
  label (`Cli.LatinLabelUnreadable`). This needs the label's bytes to be
  freshly zeroed: over a longer old file and a size below 526, old bytes
  after the label can complete a valid UTF-8 sequence.
- `list` advances 16 bytes past a slot in use but only 6 past a free one
  (`Directory.ListMisreadsAfterFreeSlot`).

The lemmas about `add`, `remove` and `export` assume a formatted image: one
that covers the directory (1008 bytes) and whose bitmap marks the boot,
directory and bitmap sectors used (`Bitmap.Reserved`, which
`Format.CreateReserves` shows `create` establishes). Each row names any
further condition.

## Model

| member | source | states |
|---|---|---|
| Layout.RoundCeil | ryfs.py:296-302 | The result is a multiple of `k`: the least one at or above `n` for `n > 0`, and `k` itself for `n = 0`. |
| Layout.Units | ryfs.py:296-302 | `round_ceil(n, k) / k` is the number of `k`-sized units that hold `n`, and 1 for `n = 0`. |
| Layout.ImageSectors | ryfs.py:360 | The sector count of a `size`-byte image covers `size` and is the least count that does, except that an empty image counts one sector (`round_ceil(0, 512) = 512`). It is at most 32768 within 16 MiB. |
| Layout.BitmapSectors | ryfs.py:32 | Enough bitmap sectors give every sector a bit; within 16 MiB that is at most 8. |
| Layout.FileSegments | ryfs.py:375 | A file of `size` bytes takes the least number of 506-byte segments that holds it, and an empty file takes one. |
| Bytes.StrToBytes | ryfs.py:313-317 | `str_to_bytearray` succeeds exactly when every character is below 256, giving one byte per character with its code point. |
| Bits.FindFirstClear | ryfs.py:304-311 | `None` exactly for `0xFF`; otherwise an index below 8 whose bit is clear, with every lower bit set. |
| Bits.SetBit | ryfs.py:268 | `b \| 1 << i` has bit `i` set and every other bit as in `b`. |
| Bits.ClearBit | ryfs.py:289 | `b & ~(1 << i)` has bit `i` clear and every other bit as in `b`. |
| Bits.SetBitIdempotent | ryfs.py:268 | Setting a bit twice is setting it once. |
| Bits.ClearBitIdempotent | ryfs.py:289 | Clearing a bit twice is clearing it once. |
| Bits.ClearUndoesSet | ryfs.py:268-289 | Clearing the bit just set returns the byte exactly when that bit was clear before. |
| Bits.EncodedBits | ryfs.py:48 | Bit `t` of a little-endian packed number is bit `t % 8` of its byte `t / 8`. |
| Bitmap.MarkFreeOffset | ryfs.py:280-286 | The byte `ryfs_mark_free` addresses is never in front of the bitmap; where it lands exactly is `MarkFreeOffsetAgreement`. |
| Bitmap.MarkUsedOffsetIsBitByte | ryfs.py:259-265 | The byte `ryfs_mark_used` addresses is always `1024 + s / 8`. |
| Bitmap.MarkFreeOffsetAgreement | ryfs.py:280-286 | Below 32768, `ryfs_mark_free` addresses `1024 + s / 8` exactly for sectors below 4096; from 4096 on it lands `512 * (s / 4096)` bytes further. |
| Bitmap.MarkUsed | ryfs.py:255-273 | Afterwards sector `s` is used, every other sector's bit is unchanged, and no other byte changes. |
| Bitmap.MarkFree | ryfs.py:276-294 | Only the addressed byte changes, and only bit `s % 8` of it is cleared. Below 4096 that frees `s` and nothing else; from 4096 to 32767, `s`'s own bit stays as it was. |
| Bitmap.MarkUsedIdempotent | ryfs.py:255-273 | Marking a sector used twice gives the same file as marking it once. |
| Bitmap.MarkFreeIdempotent | ryfs.py:276-294 | Marking a sector free twice gives the same file as marking it free once. |
| Bitmap.MarkFreeAfterMarkUsed | ryfs.py:255-294 | Freeing a sector just marked used leaves it free exactly when it is below 4096. Below 4096, a sector that was free comes back to the same file. |
| Bitmap.ScanBitmap | ryfs.py:202-208 | The scan from a bitmap byte returns the lowest free sector in its range, or `None` exactly when every sector there is used. |
| Bitmap.FindFreeSector | ryfs.py:196-211 | The lowest free sector below `4096 * bs`, or `None` when all of them are used. |
| Bitmap.NoneFree | ryfs.py:196-211 | The free count is zero exactly when every sector below `m` is used. |
| Bitmap.FindsFreeSector | ryfs.py:196-211 | The allocator offers a sector exactly when the free count below `4096 * bs` is positive. |
| Bitmap.FreeCountTake | ryfs.py:255-273 | Marking one free sector used lowers the free count by exactly one. |
| Bitmap.FreeCountMono | ryfs.py:276-294 | A bitmap that marks fewer sectors used counts at least as many free. |
| Bitmap.FindFreeSectorFrame | ryfs.py:200-206 | The allocator's answer depends only on the `512 * bs` bitmap bytes. |
| Directory.EntryKey | ryfs.py:237-242 | The key is the name padded with spaces to 8 bytes, the extension, then a zero byte. |
| Directory.FindEntry | ryfs.py:233-252 | `None` exactly when no slot's bytes 4..15 equal the key. Otherwise, for the lowest slot `i` that matches, the position after the name read less 16 (`tell() - 16`): `528 + 16 i` for a 3-byte extension, and earlier for a shorter key, which can only match at the end of the file. |
| Directory.TruncatedDirectoryMatch | ryfs.py:243-252 | A file ending in an empty-extension key at slot 0's name field is found, and its entry is taken to start 3 bytes before slot 0. |
| Directory.ShortExtensionNeverFound | ryfs.py:237-245 | With an extension under three bytes the key is shorter than the 12 bytes read, so no file is found. |
| Directory.FindFreeEntry | ryfs.py:215-229 | `None` exactly when no slot starts with two zero bytes; otherwise the offset of the lowest one that does. |
| Directory.ListFrom | ryfs.py:186-192 | The listing loop prints at most one name field per remaining iteration, each at most 12 bytes; its output for used prefixes is `ListUsedPrefix`. |
| Directory.List | ryfs.py:184-192 | `list` prints at most 30 name fields of at most 12 bytes each. |
| Directory.ListUsedPrefix | ryfs.py:184-192 | When the slots in use are the first `u` and the rest of the directory is zero, `list` prints their name fields in slot order. |
| Directory.ListMisreadsAfterFreeSlot | ryfs.py:187-192 | A free slot 0 followed by a slot in use makes `list` print 12 bytes from the middle of slot 1 instead of its name. |
| Chain.WriteSegment | ryfs.py:95-112 | One iteration's sector holds `FF 00`, the link, the trailing size, the chunk and zero padding, and nothing outside the sector changes. |
| Chain.SegmentWritesAreOneWrite | ryfs.py:95-112 | The tool's separate writes to a sector leave the same file as writing the whole segment at once. |
| Chain.WriteChain | ryfs.py:88-112 | The loop either completes or crashes, and it never shrinks the file. |
| Chain.Iteration | ryfs.py:89-91 | Taking the lowest free sector and then running the rest of the loop either completes or crashes, and it never shrinks the file. |
| Chain.IterationAt | ryfs.py:92-112 | Marking the taken sector, writing its segment and running the rest of the loop either completes or crashes, and it never shrinks the file. |
| Chain.FreeChain | ryfs.py:134-138 | The free loop of `remove` never shrinks the file and, wherever the chain lies, changes nothing in front of the bitmap. |
| Chain.ReadChain | ryfs.py:160-174 | The export loop reads at most 506 bytes from every segment but the last and at most 65535 from the last, since the trailing size is not checked against the sector; nothing from an empty chain. What it returns after `add` is `RoundTrip.AddExport`. |
| Chain.ChainSectors | ryfs.py:133-138 | A walk of `count` segments visits `count` sectors, starting with the first. |
| Chain.WriteChainSpec | ryfs.py:88-112 | A loop that completes writes a chain starting at the first sector the allocator offered. The chain reads back as the rest of the file. Its sectors were free and are now used, are distinct, and carry `FF 00`. Every segment but the last has a zero trailing size; the last has link 0 and the file's trailing size. No byte the bitmap marks used changes. |
| Chain.WriteChainLast | ryfs.py:102-112 | The last iteration writes a one-segment chain with link 0 and the remaining size. |
| Format.Booted | ryfs.py:21-27 | Zeroing does not truncate: the file is at least as long as before and as `size`, zero over `size` without a boot sector, and unchanged past both `size` and byte 512. |
| Format.Fits | ryfs.py:32-48 | The header fields fit their pack formats for every size up to 16 MiB. |
| Format.Formatted | ryfs.py:21-48 | The formatted file is as long as the longest of the old file, `size`, and the header and bitmap writes. |
| Format.Create | ryfs.py:14-48 | `create` succeeds exactly when the fields fit and the label has no character above U+00FF. Within 16 MiB only the label can fail. On success the file is the formatted image; every failure is a crash. |
| Format.InitialBitmap | ryfs.py:43-47 | The initial bitmap word has no bit at or above `bs + 2`; which bits it sets is `InitialBitmapBits`. |
| Format.InitialBitmapBits | ryfs.py:43-47 | The initial bitmap word marks exactly sectors `0 .. bs + 1`. |
| Format.CreateView | ryfs.py:21-48 | Each byte of the formatted file is the bitmap word, label, sector count, version bytes, bitmap sector count, boot sector byte or zero; past `size` it is the old file's byte. |
| Format.CreateHeader | ryfs.py:29-48 | Byte 512 is the bitmap sector count, 513..515 are `01 'R' 'Y'`, 516..517 the sector count, the label starts at 518, and the first bitmap word marks exactly the reserved sectors. |
| Format.CreateReserves | ryfs.py:42-48 | The boot, directory and bitmap sectors are marked used. |
| Format.CreateAllocates | ryfs.py:42-48 | The allocator's first offer on a new image is the sector right after the bitmap. |
| Format.CreateListsNothing | ryfs.py:21-24 | Over an empty file, or with a size that covers the directory, the new image lists no files. |
| Format.CreateDefault | ryfs.py:353-360 | The default 1,474,560-byte image has one bitmap sector, 2880 sectors and first bitmap byte `0b111`. |
| Files.Insert | ryfs.py:60-112 | Directory full exactly when no slot is free, storage exhausted exactly when a slot is free but no sector is. Both leave the file unchanged, and no other error arises besides a crash. |
| Files.Place | ryfs.py:72-112 | Writing the entry and the chain completes or crashes and never shrinks the file. |
| Files.Add | ryfs.py:51-112 | `add` ends in success, a full directory, exhausted storage or a crash. |
| Files.Cleared | ryfs.py:52-55 | The image `add` places the file on is the input when no slot carries the name; otherwise it is the image after `remove`, whose effect is `AddCompletes`. |
| Files.EntryImage | ryfs.py:72-83 | The entry reads back: the first sector at `e`, the segment count at `e + 2` and the name field from `e + 4`, and the file does not shrink. |
| Files.Remove | ryfs.py:117-142 | `remove` fails exactly when no slot carries the name; it then reports the file missing and leaves the image unchanged. |
| Files.Export | ryfs.py:145-176 | `export` fails exactly when no slot carries the name, and then reports the file missing. |
| Files.Erase | ryfs.py:126-142 | After the entry is found, `remove` leaves its 16 slot bytes zero and the file no shorter; its bitmap effect is `Removal.EraseSpec`. |
| Removal.FreeChainFrame | ryfs.py:134-138 | The free loop over a chain whose sectors lie in 3..4095 changes nothing outside the first bitmap sector. |
| Removal.FreeChainBits | ryfs.py:134-138 | For a chain whose sectors all lie in 3..4095, the free loop clears the bits of the chain's sectors and no other bit of the first bitmap sector. |
| Removal.RemoveSpec | ryfs.py:117-142 | Removing a file whose chain lies in sectors 3..4095 succeeds. It zeroes the slot and clears the bits of the first sector and of every chain sector. No other bit of the first bitmap sector changes, and nothing outside the slot and that sector changes. |
| Removal.EraseBelowBitmap | ryfs.py:126-142 | Once the entry is found, whatever its chain, the slot is zeroed and nothing else in front of the bitmap changes. |
| Removal.EraseSpec | ryfs.py:126-142 | Once the entry is found, if its first sector and chain lie in 3..4095, the slot is zeroed and exactly the chain's bits are cleared. |
| RoundTrip.InsertSpec | ryfs.py:60-112 | For a 3-byte extension, on an image covering the directory with its reserved sectors marked: inserting a name no slot carries puts the first sector and segment count in the first free slot. The chain from that sector reads back as the file, in fresh, distinct, formatted sectors. Used bytes outside the slot are unchanged, and `export` of the name returns the file. |
| RoundTrip.RemovedName | ryfs.py:117-142 | Removing the only slot carrying a name leaves no slot carrying it, wherever the file's chain lies. |
| RoundTrip.RemovedReserved | ryfs.py:117-142 | With at most 4094 bitmap sectors, removing a file whose first sector and chain lie in 3..4095 past the reserved sectors keeps the reserved sectors marked used. |
| RoundTrip.AddExport | ryfs.py:51-176 | `add` followed by `export` of the same name returns exactly the added bytes, also when the add replaces an existing file. |
| RoundTrip.RemoveKeepsHeader | ryfs.py:117-142 | `remove` changes nothing in front of the found entry, whatever the file's chain; with a 3-byte extension, nothing in front of the directory. |
| RoundTrip.InsertKeepsHeader | ryfs.py:60-112 | For a 3-byte extension, on an image covering the directory with its reserved sectors marked, placing a name no slot carries changes nothing in front of the directory. |
| RoundTrip.AddKeepsHeader | ryfs.py:51-112 | Under the conditions of `AddExport` (3-byte extension, name without zero bytes, carried by at most one slot, reserved sectors marked, and on replace an old chain in 3..4095 past the reserved sectors), a successful `add` changes nothing in front of the directory, so the boot sector and header survive. |
| Capacity.WriteChainNeeds | ryfs.py:88-112 | A loop from iteration `k` that completes had a free sector below `4096 * bs` for each remaining segment. |
| Capacity.WriteChainSucceeds | ryfs.py:88-112 | With at most 16 bitmap sectors, a free sector for each remaining segment makes the loop complete. |
| Capacity.InsertCompletes | ryfs.py:60-112 | Placing a new file succeeds exactly when a slot is free, the segment count fits 16 bits and the bitmap has a free sector per segment (the converse direction with at most 16 bitmap sectors). |
| Capacity.AddCompletes | ryfs.py:51-112 | `add` succeeds exactly when, after the old file of that name is removed, a slot is free, the segment count fits 16 bits and a free sector exists per segment. Replacing a file always finds a slot and never leaves fewer free sectors than before. |
| Capacity.AddExportsData | ryfs.py:51-176 | Under the conditions of `AddExport`, on an image covering the directory with at most 16 bitmap sectors, a free slot or a file to replace, a segment count below 65536 and a free sector per segment: `add` succeeds and `export` returns exactly the added bytes. |
| Utf8.Decode | ryfs.py:401 | Decoding succeeds exactly on well-formed UTF-8 and never yields more characters than bytes. |
| Utf8.AsciiDecodes | ryfs.py:401 | ASCII bytes decode to themselves. |
| Utf8.LatinByteRejected | ryfs.py:401 | A lone byte `E9` followed by a zero is not UTF-8. |
| Cli.StoredLabel | ryfs.py:400-401 | A stored label that decodes has at most 8 characters. |
| Cli.DecodeAll | ryfs.py:186-189 | The listed names decode exactly when each is well-formed UTF-8, one decoded name per field. |
| Cli.Run | ryfs.py:378-419 | Each check error happens exactly when its condition holds, in the tool's order, and leaves the image unchanged: 8.3 name, then size over 16 MiB, then label over 8 characters (only possible for `create`). An undecodable stored label crashes other actions before they touch the image. `export` and `list` never change the image. `create` succeeds exactly for sizes 0..16 MiB and short labels with no character above U+00FF, leaving the formatted image. |
| Cli.Perform | ryfs.py:407-416 | The operations end only in their own errors, `export` and `list` leave the image alone, and `list` succeeds exactly when every listed name is UTF-8. |
| Cli.CreatedLabel | ryfs.py:38-39 | With a size covering the directory, or over an empty file, a new image's 8 label bytes are the label and then zeros. |
| Cli.CreateThenList | ryfs.py:14-48 | With a size covering the directory, or over an empty file, `list` after `create` with an ASCII label succeeds and prints nothing. |
| Cli.LatinLabelUnreadable | ryfs.py:397-403 | With a size covering the directory, or over an empty file, after `create` with the label `é` every other action crashes at the label and leaves the image unchanged. |
| Cli.AddThenExport | ryfs.py:397-416 | Under the conditions of `RoundTrip.AddExport` (3-byte extension, name without zero bytes, carried by at most one slot, image covering the directory with the reserved sectors of its header's bitmap count marked, and on replace an old chain in 3..4095 past them), a successful `add` run followed by an `export` run of the same name returns the file. |

## Left out

- Argument parsing, opening files, `os.fstat`, printing and `sys.exit` (ryfs.py:319-356). An action's operands, the `--size` value and the files' contents are inputs. An exit after an error is an `Err` outcome.
- The `seek`/`tell` save and restore in every helper. Offsets are explicit.
- The unknown-action branch (ryfs.py:417-419): `Action` admits only the five actions.
- Splitting the file argument into name and extension (`split('.')` at ryfs.py:371, `os.path.splitext` at ryfs.py:373). Names and extensions are given as their bytes: their UTF-8 encoding (`bytearray(..., 'utf-8')`, ryfs.py:80-82) happens before the model starts.
- Cli.Run: the 8.3 check counts bytes, where the tool counts characters. The two agree for ASCII names; non-ASCII names are not modelled.
- The `-q` flag (ryfs.py:354) only affects printing.
- The `int(x / 4096)` float divisions (ryfs.py:32, 259-260, 280-281) are exact for the values involved and are modelled as integer division.
- Removal.RemoveSpec: stated only for chains whose sectors lie in 3..4095. That is where `ryfs_mark_free` frees the sector's own bit; above, it writes the wrong byte (`Bitmap.MarkFreeOffsetAgreement`).
- RoundTrip.AddExport: needs a 3-byte extension, a name without zero bytes, a name no more than one slot carries, and a file image covering the directory. If the name is already present, the old chain must lie in 4096 sectors past the reserved ones. Outside these, `ryfs_remove` can leave the old entry matching or corrupt the bitmap.
- Capacity.WriteChainSucceeds: the direction from free sectors to success is stated for images of at most 16 bitmap sectors, which is every image whose sector count fits the header's 16-bit field. With more, a free sector past 65535 makes `pack('<H', ...)` raise, and the lemma does not describe which loops survive that.
- Capacity.InsertCompletes: stated for extensions of at most three bytes, which the main block enforces (ryfs.py:378). The success direction carries the same 16-bitmap-sector bound as `WriteChainSucceeds`.
- Capacity.AddCompletes: when the name is already present, the old file must satisfy the conditions of `RoundTrip.AddExport` (a chain in the first bitmap sector's range, past the reserved sectors). The success direction carries the 16-bitmap-sector bound.
- Removal.FreeChainBits: stated only for chains whose sectors lie in 3..4095, as for `Removal.RemoveSpec`. From 4096 on, `ryfs_mark_free` clears a bit in the wrong byte. Below 3, the chain can include the first bitmap sector itself, whose header bytes the free then rewrites before the loop reads its link.
- Removal.EraseSpec: stated only when the entry's first sector and chain lie in 3..4095, for the same reason. `Removal.EraseBelowBitmap` covers every chain for the bytes in front of the bitmap.
- RoundTrip.AddKeepsHeader: carries the conditions of `RoundTrip.AddExport`, which it is proved with. Outside them the replace path can corrupt the bitmap, as described for `AddExport`.
- Capacity.AddExportsData: carries the conditions of `RoundTrip.AddExport` and the 16-bitmap-sector bound of `Capacity.WriteChainSucceeds`, and needs a file image covering the directory, for the reasons given on those lines.
- RoundTrip.InsertSpec: stated for 3-byte extensions on formatted images. With a shorter extension the file is placed but never found again (`Directory.ShortExtensionNeverFound`), so the read-back part does not hold.
- RoundTrip.InsertKeepsHeader: stated for 3-byte extensions on formatted images, as for `InsertSpec`.
- RoundTrip.RemovedReserved: stated only for an old file whose first sector and chain lie in 3..4095 past the reserved sectors. From 4096 on, `ryfs_mark_free` writes a different byte (ryfs.py:282), which can be a later segment's link.
- Cli.CreatedLabel: needs a size of at least 1008 or an empty old file. Otherwise old bytes after the label survive `create`, which does not truncate.
- Cli.CreateThenList: needs a size of at least 1008 or an empty old file, so that no old directory slot survives.
- Cli.LatinLabelUnreadable: needs a size of at least 1008 or an empty old file. Over old bytes such as `A9 80` after the label, `E9 A9 80` decodes and later actions go ahead.
- Cli.AddThenExport: carries the conditions of `RoundTrip.AddExport`, for the reasons given there.
- Crashed outcomes carry the partially written image, but no property is proved about it.
- Directory.ListUsedPrefix: `list` is characterised only when the slots in use form a prefix. Otherwise only the misreading lemma describes it.
- Utf8.Decode: the decoded characters are code points; printing them is left out.
