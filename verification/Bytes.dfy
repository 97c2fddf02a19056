/** Machine bytes and the little-endian fields the kernel's on-disk and in-memory records are made of. */
module Bytes {

  type byte = b: int | 0 <= b < 256

  const TWO16: int := 0x1_0000
  const TWO28: int := 0x1000_0000
  const TWO32: int := 0x1_0000_0000
  const TWO64: int := 0x1_0000_0000_0000_0000

  /** The 16-bit little-endian field at `at`. */
  function Le16(s: seq<byte>, at: nat): (v: nat)
    requires at + 2 <= |s|
    ensures v < TWO16
  {
    s[at] as int + 256 * s[at + 1] as int
  }

  /** The 32-bit little-endian field at `at`. */
  function Le32(s: seq<byte>, at: nat): (v: nat)
    requires at + 4 <= |s|
    ensures v < TWO32
  {
    s[at] as int + 0x100 * s[at + 1] as int + 0x1_0000 * s[at + 2] as int + 0x100_0000 * s[at + 3] as int
  }

  function Put16(v: nat): (s: seq<byte>)
    requires v < TWO16
    ensures |s| == 2 && Le16(s, 0) == v
  {
    [v % 256, v / 256]
  }

  function Put32(v: nat): (s: seq<byte>)
    requires v < TWO32
    ensures |s| == 4 && Le32(s, 0) == v
  {
    var q1 := v / 256;
    var q2 := q1 / 256;
    [v % 256, q1 % 256, q2 % 256, q2 / 256]
  }

  /** Four bytes are recovered from the word they spell. */
  lemma Put32OfLe32(s: seq<byte>)
    requires |s| == 4
    ensures Put32(Le32(s, 0)) == s
  {
    var q1 := Le32(s, 0) / 256;
    assert q1 == s[1] as int + 0x100 * s[2] as int + 0x1_0000 * s[3] as int;
    assert q1 / 256 == s[2] as int + 0x100 * s[3] as int;
  }

  lemma Le32Local(s: seq<byte>, t: seq<byte>, at: nat)
    requires at + 4 <= |s| == |t|
    requires s[at..at + 4] == t[at..at + 4]
    ensures Le32(s, at) == Le32(t, at)
  {
    assert forall i :: at <= i < at + 4 ==> s[i] == s[at..at + 4][i - at] && t[i] == t[at..at + 4][i - at];
  }

  lemma Le32Slice(s: seq<byte>, at: nat)
    requires at + 4 <= |s|
    ensures Le32(s, at) == Le32(s[at..at + 4], 0)
  {
  }

  /** The 64-bit little-endian field at `at`. */
  function Le64(s: seq<byte>, at: nat): (v: nat)
    requires at + 8 <= |s|
    ensures v < TWO64
  {
    Le32(s, at) + TWO32 * Le32(s, at + 4)
  }

  function Put64(v: nat): (s: seq<byte>)
    requires v < TWO64
    ensures |s| == 8 && Le64(s, 0) == v
  {
    var low, high := Put32(v % TWO32), Put32(v / TWO32);
    assert (low + high)[4..8] == high && (low + high)[0..4] == low;
    Le32Slice(low + high, 0);
    Le32Slice(low + high, 4);
    low + high
  }

  lemma Le64Local(s: seq<byte>, t: seq<byte>, at: nat)
    requires at + 8 <= |s| == |t|
    requires s[at..at + 8] == t[at..at + 8]
    ensures Le64(s, at) == Le64(t, at)
  {
    assert s[at..at + 4] == s[at..at + 8][..4] && s[at + 4..at + 8] == s[at..at + 8][4..];
    assert t[at..at + 4] == t[at..at + 8][..4] && t[at + 4..at + 8] == t[at..at + 8][4..];
    Le32Local(s, t, at);
    Le32Local(s, t, at + 4);
  }

  lemma Le64Slice(s: seq<byte>, at: nat)
    requires at + 8 <= |s|
    ensures Le64(s, at) == Le64(s[at..at + 8], 0)
  {
    var t := s[at..at + 8];
    Le32Slice(s, at);
    Le32Slice(s, at + 4);
    Le32Slice(t, 0);
    Le32Slice(t, 4);
    assert s[at..at + 4] == t[0..4] && s[at + 4..at + 8] == t[4..8];
  }

  /** The number that bytes spell, least significant first. */
  function LittleEndian(b: seq<byte>): (v: nat) {
    if b == [] then 0 else b[0] as int + 256 * LittleEndian(b[1..])
  }

  /** The fields are read least significant byte first. */
  lemma FieldBytes(s: seq<byte>, at: nat)
    ensures at + 2 <= |s| ==> Le16(s, at) == LittleEndian(s[at..at + 2])
    ensures at + 4 <= |s| ==> Le32(s, at) == LittleEndian(s[at..at + 4])
    ensures at + 8 <= |s| ==> Le64(s, at) == LittleEndian(s[at..at + 8])
  {
    if at + 2 <= |s| {
      Digits(s[at..at + 2]);
    }
    if at + 4 <= |s| {
      Digits(s[at..at + 4]);
    }
    if at + 8 <= |s| {
      var b := s[at..at + 8];
      Digits(b);
      Digits(b[4..]);
    }
  }

  lemma Digits(b: seq<byte>)
    ensures |b| == 2 ==> LittleEndian(b) == b[0] as int + 0x100 * b[1] as int
    ensures |b| >= 4 ==>
              LittleEndian(b) ==
              b[0] as int + 0x100 * b[1] as int + 0x1_0000 * b[2] as int + 0x100_0000 * b[3] as int
              + 0x1_0000_0000 * LittleEndian(b[4..])
  {
    if |b| == 2 {
      assert b[1..] == [b[1]];
    }
    if |b| >= 4 {
      assert b[1..][1..] == b[2..] && b[2..][1..] == b[3..] && b[3..][1..] == b[4..];
    }
  }

  /** `s` with the bytes from `at` on replaced by `t`. */
  function Splice<T>(s: seq<T>, at: nat, t: seq<T>): (r: seq<T>)
    requires at + |t| <= |s|
    ensures |r| == |s|
    ensures r[at..at + |t|] == t
    ensures forall i :: 0 <= i < at || at + |t| <= i < |s| ==> r[i] == s[i]
  {
    s[..at] + t + s[at + |t|..]
  }
}
