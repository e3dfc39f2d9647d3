/** The image file as the tool sees it through a Python file object.

    A `read(n)` at offset `o` returns at most `n` bytes and fewer at the end of
    the file; a `write` at an offset past the end extends the file with zeros
    first. `At` is the zero-extended view of the file: `int.from_bytes` of a
    short little-endian read equals the value of the missing bytes taken as
    zero, so every integer field the tool reads is a function of `At`.
 */
module Bytes {
  import opened Outcomes

  type byte = x: int | 0 <= x < 256

  /** What an operation on the image file computed, or why it stopped, and
      the file it leaves behind: the tool writes in place, so a failure part
      way through keeps whatever was written before it. */
  datatype Outcome<+T> = Outcome(result: Result<T>, image: seq<byte>)

  function Min(a: int, b: int): int { if a <= b then a else b }

  function Max(a: int, b: int): int { if a >= b then a else b }

  /** `bytearray(n)`. */
  function Zeros(n: nat): (r: seq<byte>)
    ensures |r| == n
    ensures forall k :: 0 <= k < n ==> r[k] == 0
  {
    seq(n, _ => 0)
  }

  /** The byte at offset `o`, or 0 past the end of the file. */
  function At(img: seq<byte>, o: int): byte
  {
    if 0 <= o < |img| then img[o] else 0
  }

  /** `seek(o); read(n)`. */
  function Read(img: seq<byte>, o: nat, n: nat): (r: seq<byte>)
    ensures |r| == Min(n, Max(0, |img| - o))
    ensures forall k :: 0 <= k < |r| ==> r[k] == img[o + k]
  {
    if o >= |img| then [] else img[o .. Min(o + n, |img|)]
  }

  /** `tell()` after `seek(o); read(n)`: the read advances the position by
      the bytes it returned. */
  function Tell(img: seq<byte>, o: nat, n: nat): (r: nat)
    ensures r == o + |Read(img, o, n)|
  {
    o + Min(n, Max(0, |img| - o))
  }

  /** `seek(o); write(d)`: the file grows to cover the written range, any gap
      before `o` reading as zeros. */
  function Write(img: seq<byte>, o: nat, d: seq<byte>): (r: seq<byte>)
    ensures |r| == Max(|img|, o + |d|)
    ensures forall k :: 0 <= k < |d| ==> r[o + k] == d[k]
    ensures forall k {:trigger r[k]} :: 0 <= k < |r| && !(o <= k < o + |d|) ==> r[k] == At(img, k)
  {
    seq(Max(|img|, o + |d|), k requires 0 <= k => if o <= k < o + |d| then d[k - o] else At(img, k))
  }

  /** A write changes the zero-extended view inside the written range only. */
  lemma WriteAt(img: seq<byte>, o: nat, d: seq<byte>, k: int)
    ensures At(Write(img, o, d), k) == if o <= k < o + |d| then d[k - o] else At(img, k)
  {
    var r := Write(img, o, d);
    if o <= k < o + |d| {
      assert r[o + (k - o)] == d[k - o];
    }
  }

  /** The whole view after a write. */
  lemma WriteView(img: seq<byte>, o: nat, d: seq<byte>)
    ensures forall k {:trigger At(Write(img, o, d), k)} :: At(Write(img, o, d), k) == if o <= k < o + |d| then d[k - o] else At(img, k)
  {
    forall k
      ensures At(Write(img, o, d), k) == if o <= k < o + |d| then d[k - o] else At(img, k)
    {
      WriteAt(img, o, d, k);
    }
  }

  /** Writing back the byte a file already holds leaves the file as it was. */
  lemma WriteSame(img: seq<byte>, o: nat, v: byte)
    requires o < |img| && img[o] == v
    ensures Write(img, o, [v]) == img
  {
    var r := Write(img, o, [v]);
    assert |r| == |img|;
    forall k | 0 <= k < |img|
      ensures r[k] == img[k]
    {
      WriteAt(img, o, [v], k);
    }
  }

  /** Reading back a written range returns what was written. */
  lemma ReadWrite(img: seq<byte>, o: nat, d: seq<byte>)
    ensures Read(Write(img, o, d), o, |d|) == d
  {
    var r := Read(Write(img, o, d), o, |d|);
    assert |r| == |d|;
    forall k | 0 <= k < |d| ensures r[k] == d[k] {
      WriteAt(img, o, d, o + k);
    }
  }

  /** A read depends only on the view of the range it covers, once the file
      holds that whole range. */
  lemma ReadFrame(a: seq<byte>, b: seq<byte>, o: nat, n: nat)
    requires |a| >= o + n && |b| >= o + n
    requires forall k :: o <= k < o + n ==> At(a, k) == At(b, k)
    ensures Read(a, o, n) == Read(b, o, n)
  {
    var ra, rb := Read(a, o, n), Read(b, o, n);
    forall k | 0 <= k < n ensures ra[k] == rb[k] {
      assert At(a, o + k) == At(b, o + k);
    }
  }

  /** A read of a range the file holds, whose view is `d`, returns `d`. */
  lemma ReadIs(img: seq<byte>, o: nat, d: seq<byte>)
    requires |img| >= o + |d|
    requires forall k :: 0 <= k < |d| ==> At(img, o + k) == d[k]
    ensures Read(img, o, |d|) == d
  {
    var r := Read(img, o, |d|);
    forall k | 0 <= k < |d| ensures r[k] == d[k] {
      assert At(img, o + k) == d[k];
    }
  }

  function Pow256(w: nat): (r: nat)
    ensures r >= 1
  {
    if w == 0 then 1 else 256 * Pow256(w - 1)
  }

  /** `int.from_bytes(s, byteorder='little')`. */
  function FromLE(s: seq<byte>): nat
  {
    if s == [] then 0 else s[0] + 256 * FromLE(s[1..])
  }

  /** The `w`-byte little-endian encoding of `v`. */
  function ToLE(v: nat, w: nat): (r: seq<byte>)
    requires v < Pow256(w)
    ensures |r| == w
    ensures FromLE(r) == v
  {
    if w == 0 then [] else [v % 256] + ToLE(v / 256, w - 1)
  }

  /** `struct.pack('<H', v)`, which needs `v` to fit in 16 bits. */
  function LE16(v: nat): (r: seq<byte>)
    requires v < 65536
    ensures |r| == 2 && r[0] as int + 256 * r[1] as int == v
  {
    assert Pow256(2) == 65536;
    ToLE(v, 2)
  }

  /** `struct.pack(fmt, v)` for an unsigned little-endian format of `w` bytes:
      `None` where Python raises `struct.error`. */
  function Pack(v: nat, w: nat): (r: Option<seq<byte>>)
    ensures r.Some? <==> v < Pow256(w)
    ensures r.Some? ==> |r.value| == w && FromLE(r.value) == v
  {
    if v < Pow256(w) then Some(ToLE(v, w)) else None
  }

  /** The little-endian u16 at offset `o` of the zero-extended view: what
      `int.from_bytes(read(2), 'little')` returns there (`U16FromBytes`). */
  function U16(img: seq<byte>, o: nat): (r: nat)
    ensures r < 65536
  {
    At(img, o) + 256 * At(img, o + 1)
  }

  /** A two-byte read decoded little-endian is `U16`, also when the read
      comes back short at the end of the file. */
  lemma U16FromBytes(img: seq<byte>, o: nat)
    ensures FromLE(Read(img, o, 2)) == U16(img, o)
  {
    var s := Read(img, o, 2);
    if |s| == 2 {
      assert s[1..][1..] == [] && FromLE(s[1..][1..]) == 0;
      assert FromLE(s[1..]) == s[1] && s[1] == At(img, o + 1);
    } else if |s| == 1 {
      assert s[1..] == [] && FromLE(s[1..]) == 0;
    }
  }

  /** `str_to_bytearray`: one byte per character, `None` where
      `bytearray.append` raises because a code point is above 255. */
  function StrToBytes(text: string): (r: Option<seq<byte>>)
    ensures r.Some? <==> forall k :: 0 <= k < |text| ==> text[k] as int < 256
    ensures r.Some? ==> |r.value| == |text|
    ensures r.Some? ==> forall k :: 0 <= k < |text| ==> r.value[k] == text[k] as int
  {
    if text == [] then Some([])
    else if text[0] as int >= 256 then None
    else match StrToBytes(text[1..])
      case None => None
      case Some(rest) => Some([text[0] as int] + rest)
  }
}
