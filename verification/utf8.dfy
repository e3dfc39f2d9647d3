/** UTF-8 as `bytes.decode("utf-8")` accepts it: the well-formed byte
    sequences of table 3-7 in section 3.9 of the Unicode Standard. The tool
    decodes the stored volume label before every action but `create`
    (ryfs.py:400-401) and each listed name field (ryfs.py:189); bytes that
    are not well formed make the decode raise. Code points are `nat`s. */
module Utf8 {
  import opened Outcomes
  import opened Bytes

  /** The length of the sequence lead byte `b` starts, 0 when `b` cannot
      start one: a continuation byte, `C0`, `C1`, or `F5` to `FF`. */
  function SequenceLength(b: byte): (n: nat)
    ensures n <= 4
    ensures n == 1 <==> b < 0x80
  {
    if b < 0x80 then 1
    else if 0xC2 <= b < 0xE0 then 2
    else if 0xE0 <= b < 0xF0 then 3
    else if 0xF0 <= b < 0xF5 then 4
    else 0
  }

  /** The range the second byte must lie in after lead byte `b`: narrower
      after `E0` and `F0` (no overlong forms), `ED` (no surrogates) and `F4`
      (nothing above U+10FFFF). */
  function SecondLow(b: byte): byte
  {
    if b == 0xE0 then 0xA0 else if b == 0xF0 then 0x90 else 0x80
  }

  function SecondHigh(b: byte): byte
  {
    if b == 0xED then 0x9F else if b == 0xF4 then 0x8F else 0xBF
  }

  predicate IsContinuation(b: byte)
  {
    0x80 <= b <= 0xBF
  }

  /** The length of the well-formed sequence `s` starts with, 0 when it
      starts with none. */
  function FirstLength(s: seq<byte>): (n: nat)
    requires |s| > 0
    ensures n <= |s| && n <= 4
    ensures n > 0 ==> n == SequenceLength(s[0])
  {
    var n := SequenceLength(s[0]);
    if n == 0 || n > |s| then 0
    else if n >= 2 && !(SecondLow(s[0]) <= s[1] <= SecondHigh(s[0])) then 0
    else if n >= 3 && !IsContinuation(s[2]) then 0
    else if n == 4 && !IsContinuation(s[3]) then 0
    else n
  }

  /** The scalar value the well-formed `n`-byte sequence at the start of `s`
      encodes. */
  function CodePoint(s: seq<byte>, n: nat): nat
    requires |s| > 0 && 1 <= n == FirstLength(s)
  {
    var b := s[0] as int;
    if n == 1 then b
    else if n == 2 then (b - 0xC0) * 64 + (s[1] as int - 0x80)
    else if n == 3 then (b - 0xE0) * 4096 + (s[1] as int - 0x80) * 64 + (s[2] as int - 0x80)
    else (b - 0xF0) * 262144 + (s[1] as int - 0x80) * 4096 + (s[2] as int - 0x80) * 64 + (s[3] as int - 0x80)
  }

  /** `s` is a concatenation of well-formed sequences. */
  predicate WellFormed(s: seq<byte>)
    decreases |s|
  {
    s == [] || (FirstLength(s) > 0 && WellFormed(s[FirstLength(s)..]))
  }

  /** `s.decode("utf-8")`: the code points, or `None` where Python raises.
      A decoded string never has more characters than the bytes it came
      from. */
  function Decode(s: seq<byte>): (r: Option<seq<nat>>)
    ensures r.Some? <==> WellFormed(s)
    ensures r.Some? ==> |r.value| <= |s|
    decreases |s|
  {
    if s == [] then Some([])
    else
      var n := FirstLength(s);
      if n == 0 then None
      else match Decode(s[n..])
        case None => None
        case Some(rest) => Some([CodePoint(s, n)] + rest)
  }

  /** ASCII bytes decode to themselves. */
  lemma {:induction false} AsciiDecodes(s: seq<byte>)
    requires forall k :: 0 <= k < |s| ==> s[k] < 0x80
    ensures Decode(s).Some?
    ensures |Decode(s).value| == |s|
    ensures forall k :: 0 <= k < |s| ==> Decode(s).value[k] == s[k]
    decreases |s|
  {
    if s != [] {
      assert FirstLength(s) == 1;
      AsciiDecodes(s[1..]);
    }
  }

  /** A Latin-1 letter such as `é` stored as its single byte `E9`, followed
      by zeros, is not UTF-8: `E9` asks for two continuation bytes. */
  lemma LatinByteRejected(pad: seq<byte>)
    requires |pad| >= 2 && pad[0] == 0
    ensures Decode([0xE9] + pad).None?
  {
    var s := [0xE9] + pad;
    assert s[0] == 0xE9 && s[1] == 0;
    assert FirstLength(s) == 0;
  }
}
