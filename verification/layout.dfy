/** The fixed geometry of an RYFSv1 image and the sizes the tool derives
    from byte counts (ryfs.py:32, 360, 375). */
module Layout {

  const SectorSize: nat := 512
  /** Sector 1 starts with the header. */
  const HeaderOffset: nat := 512
  const MagicOffset: nat := 513
  const TotalSectorsOffset: nat := 516
  const LabelOffset: nat := 518
  /** The 30 directory entries follow the 16-byte header in sector 1. */
  const DirectoryOffset: nat := 528
  const EntrySize: nat := 16
  const EntryCount: nat := 30
  const DirectoryEnd: nat := 1008
  /** The bitmap starts at sector 2. */
  const BitmapOffset: nat := 1024
  const BitmapSectorBytes: nat := 512
  /** One bit per sector: a 512-byte bitmap sector covers 4096 sectors. */
  const SectorsPerBitmapSector: nat := 4096
  /** The bitmap of a 16-bit sector count spans at most 16 sectors, and
      every sector it covers has a number that fits a 16-bit link. */
  const MaxBitmapSectors: nat := 16
  /** A data segment: `FF 00 next:u16 trailing:u16` then the payload. */
  const SegmentHeaderSize: nat := 6
  const PayloadSize: nat := 506
  const MaxImageSize: nat := 16777216
  const DefaultImageSize: nat := 1474560
  const MaxLabelLength: nat := 8
  const MaxNameLength: nat := 8
  const MaxExtLength: nat := 3

  /** `round_ceil(number, ceil_num)`: the least multiple of `k` that is at
      least `n`, except that 0 rounds to `k` rather than to 0. */
  function RoundCeil(n: nat, k: nat): (r: nat)
    requires k > 0
    ensures r % k == 0
    ensures n == 0 ==> r == k
    ensures n > 0 ==> n <= r < n + k
  {
    if n == 0 then k
    else if n % k == 0 then n
    else
      var r := n + k - n % k;
      assert r == k * (n / k + 1);
      MultipleMod(k, n / k + 1);
      r
  }

  lemma MultipleMod(k: nat, q: nat)
    requires k > 0
    ensures (k * q) % k == 0 && (k * q) / k == q
  {
    var m := k * q;
    DivModUnique(k, m / k, m % k, q, 0);
  }

  /** Euclidean division by `k` has one quotient and one remainder. */
  lemma DivModUnique(k: nat, a: int, b: int, c: int, d: int)
    requires k > 0
    requires 0 <= b < k && 0 <= d < k
    requires k * a + b == k * c + d
    ensures a == c && b == d
  {
    if a > c {
      assert k * (a - c) == d - b;
      MulAtLeast(k, a - c);
    } else if a < c {
      assert k * (c - a) == b - d;
      MulAtLeast(k, c - a);
    }
  }

  lemma MulAtLeast(k: nat, t: int)
    requires t >= 1
    ensures k * t >= k
  {
    if t > 1 {
      MulAtLeast(k, t - 1);
      assert k * t == k * (t - 1) + k;
    }
  }

  /** `int(round_ceil(n, k) / k)`: the number of `k`-sized units needed to
      hold `n`, and one unit when `n` is 0. */
  function Units(n: nat, k: nat): (r: nat)
    requires k > 0
    ensures r >= 1
    ensures n == 0 ==> r == 1
    ensures n > 0 ==> k * (r - 1) < n <= k * r
  {
    var m := RoundCeil(n, k);
    assert m == k * (m / k);
    m / k
  }

  /** Sectors of an image of `size` bytes (ryfs.py:360): an empty image
      still counts one. */
  function ImageSectors(size: nat): (r: nat)
    ensures r >= 1
    ensures size == 0 ==> r == 1
    ensures size > 0 ==> SectorSize * (r - 1) < size <= SectorSize * r
    ensures size <= MaxImageSize ==> r <= 32768
  {
    Units(size, SectorSize)
  }

  /** Bitmap sectors needed to give each of `sectors` sectors a bit
      (ryfs.py:32). */
  function BitmapSectors(sectors: nat): (r: nat)
    ensures r >= 1
    ensures sectors > 0 ==> SectorsPerBitmapSector * (r - 1) < sectors <= SectorsPerBitmapSector * r
    ensures sectors <= 32768 ==> r <= 8
  {
    Units(sectors, SectorsPerBitmapSector)
  }

  /** Segments of a file of `size` bytes (ryfs.py:375): an empty file still
      takes one. */
  function FileSegments(size: nat): (r: nat)
    ensures r >= 1
    ensures size == 0 ==> r == 1
    ensures size > 0 ==> PayloadSize * (r - 1) < size <= PayloadSize * r
  {
    Units(size, PayloadSize)
  }

  /** Offset of directory slot `i`. */
  function SlotOffset(i: nat): nat
  {
    DirectoryOffset + EntrySize * i
  }
}
