/** Little-endian integer encodings and positional reads and writes on a byte
    sequence: the parts of Go's encoding/binary and os.File (ReadAt, WriteAt)
    that the day file relies on. */
module Bytes {

  type byte = x: int | 0 <= x < 256

  const TWO32: int := 0x1_0000_0000
  const TWO64: int := 0x1_0000_0000_0000_0000
  const TWO63: int := 0x8000_0000_0000_0000

  /** binary.LittleEndian.PutUint32 */
  function Le32(v: nat): (r: seq<byte>)
    requires v < TWO32
  {
    [v % 256, (v / 256) % 256, (v / 65536) % 256, (v / 16777216) % 256]
  }

  /** binary.LittleEndian.Uint32 of s[off..off+4] */
  function U32(s: seq<byte>, off: int): (r: nat)
    requires 0 <= off && off + 4 <= |s|
    ensures r < TWO32
  {
    (s[off] as int) + 256 * (s[off + 1] as int) + 65536 * (s[off + 2] as int) + 16777216 * (s[off + 3] as int)
  }

  /** binary.Write of an int64 (or uint64) in little-endian order: two's
      complement modulo 2^64, low word first. */
  function Le64(v: int): (r: seq<byte>)
  {
    var u := v % TWO64;
    Le32(u % TWO32) + Le32(u / TWO32)
  }

  /** The unsigned 64-bit value stored at s[off..off+8]. */
  function U64(s: seq<byte>, off: int): nat
    requires 0 <= off && off + 8 <= |s|
  {
    U32(s, off) + TWO32 * U32(s, off + 4)
  }

  /** The same eight bytes read as a signed int64. */
  function I64(s: seq<byte>, off: int): int
    requires 0 <= off && off + 8 <= |s|
  {
    var u := U64(s, off);
    if u < TWO63 then u else u - TWO64
  }

  predicate IsInt64(v: int) {
    -TWO63 <= v < TWO63
  }

  /** File.ReadAt into a freshly zeroed buffer of n bytes: the bytes past the
      end of the file stay zero (the callers in the day file ignore the
      short-read error). */
  function ReadZ(s: seq<byte>, off: nat, n: nat): (r: seq<byte>)
    ensures |r| == n
    ensures off + n <= |s| ==> r == s[off..off + n]
  {
    seq(n, i requires 0 <= i < n => if off + i < |s| then s[off + i] else 0)
  }

  /** File.WriteAt: overwrite [off, off+|c|), growing the file with zero
      bytes when the write reaches past its end. */
  function Patch(s: seq<byte>, off: nat, c: seq<byte>): (r: seq<byte>)
    ensures |r| == if off + |c| <= |s| then |s| else off + |c|
    ensures forall i {:trigger r[i]} :: 0 <= i < |s| && !(off <= i < off + |c|) ==> r[i] == s[i]
    ensures forall i {:trigger r[i]} :: off <= i < off + |c| ==> r[i] == c[i - off]
  {
    var n := if off + |c| <= |s| then |s| else off + |c|;
    seq(n, i requires 0 <= i < n =>
      if off <= i < off + |c| then c[i - off] else if i < |s| then s[i] else 0)
  }

  /** A read of the bytes just written returns them. */
  lemma ReadPatched(s: seq<byte>, off: nat, c: seq<byte>)
    ensures ReadZ(Patch(s, off, c), off, |c|) == c
  {
    var r := Patch(s, off, c);
    assert forall i :: 0 <= i < |c| ==> ReadZ(r, off, |c|)[i] == r[off + i] == c[i];
  }

  /** A read that misses the bytes written sees what it saw before, the
      zeros the write may have grown the file with included. */
  lemma ReadAroundPatch(s: seq<byte>, off: nat, c: seq<byte>, o: nat, n: nat)
    requires o + n <= off || off + |c| <= o
    ensures ReadZ(Patch(s, off, c), o, n) == ReadZ(s, o, n)
  {
    var r := Patch(s, off, c);
    forall i | 0 <= i < n ensures ReadZ(r, o, n)[i] == ReadZ(s, o, n)[i] {
      if o + i < |s| {
        assert r[o + i] == s[o + i];
      }
    }
  }

  /** Two sequences that agree on [lo, hi). */
  ghost predicate AgreeOn(x: seq<byte>, y: seq<byte>, lo: int, hi: int) {
    0 <= lo && hi <= |x| && hi <= |y| && forall k :: lo <= k < hi ==> x[k] == y[k]
  }

  lemma AgreeU32(x: seq<byte>, y: seq<byte>, off: int)
    requires 0 <= off && AgreeOn(x, y, off, off + 4)
    ensures U32(x, off) == U32(y, off)
  {
    assert x[off] == y[off] && x[off + 1] == y[off + 1] && x[off + 2] == y[off + 2] && x[off + 3] == y[off + 3];
  }

  lemma AgreeSlice(x: seq<byte>, y: seq<byte>, lo: int, hi: int)
    requires lo <= hi && AgreeOn(x, y, lo, hi)
    ensures x[lo..hi] == y[lo..hi]
  {
    assert forall j :: 0 <= j < hi - lo ==> x[lo..hi][j] == x[lo + j] == y[lo + j] == y[lo..hi][j];
  }

  /** Uint32 undoes PutUint32. */
  lemma U32OfLe32(v: nat)
    requires v < TWO32
    ensures U32(Le32(v), 0) == v
  {
    var q1 := v / 256;
    var q2 := q1 / 256;
    var q3 := q2 / 256;
    assert v == v % 256 + 256 * q1;
    assert q1 == q1 % 256 + 256 * q2;
    assert q2 == q2 % 256 + 256 * q3;
    assert v / 65536 == q2;
    assert v / 16777216 == q3;
    assert q3 < 256;
  }

  /** A four-byte read sees only the four bytes it covers. */
  lemma U32OfAgreeing(s: seq<byte>, t: seq<byte>, off: int, off': int)
    requires 0 <= off && off + 4 <= |s|
    requires 0 <= off' && off' + 4 <= |t|
    requires s[off..off + 4] == t[off'..off' + 4]
    ensures U32(s, off) == U32(t, off')
  {
    assert s[off] == s[off..off + 4][0] && t[off'] == t[off'..off' + 4][0];
    assert s[off + 1] == s[off..off + 4][1] && t[off' + 1] == t[off'..off' + 4][1];
    assert s[off + 2] == s[off..off + 4][2] && t[off' + 2] == t[off'..off' + 4][2];
    assert s[off + 3] == s[off..off + 4][3] && t[off' + 3] == t[off'..off' + 4][3];
  }

  /** Reading back a PutUint32 placed at position off of a longer sequence. */
  lemma U32At(pre: seq<byte>, v: nat, post: seq<byte>)
    requires v < TWO32
    ensures U32(pre + Le32(v) + post, |pre|) == v
  {
    var s := pre + Le32(v) + post;
    assert s[|pre|..|pre| + 4] == Le32(v)[0..4];
    U32OfAgreeing(s, Le32(v), |pre|, 0);
    U32OfLe32(v);
  }

  /** The low word of a stored int64 is the value modulo 2^32; the high word
      is the rest of its two's complement. */
  lemma Le64Words(v: int)
    ensures |Le64(v)| == 8
    ensures U32(Le64(v), 0) == v % TWO32
    ensures U32(Le64(v), 4) == (v % TWO64) / TWO32
  {
    var u := v % TWO64;
    assert Le64(v) == Le32(u % TWO32) + Le32(u / TWO32) + [];
    U32At([], u % TWO32, Le32(u / TWO32));
    U32At(Le32(u % TWO32), u / TWO32, []);
    ModMod(v);
  }

  lemma ModMod(v: int)
    ensures (v % TWO64) % TWO32 == v % TWO32
  {
    var u := v % TWO64;
    var k := v / TWO64;
    assert v == TWO64 * k + u;
    assert TWO64 * k == TWO32 * (TWO32 * k);
    ModShift(u, TWO32 * k);
  }

  lemma SmallMod(x: int)
    requires 0 <= x < TWO32
    ensures x % TWO32 == x
  {
  }

  lemma ModShift(u: int, k: int)
    ensures (TWO32 * k + u) % TWO32 == u % TWO32
  {
  }

  /** Reading back an int64 written with binary.Write. */
  lemma I64OfLe64(v: int)
    requires IsInt64(v)
    ensures |Le64(v)| == 8 && I64(Le64(v), 0) == v
  {
    Le64Words(v);
    ModMod(v);
    var u := v % TWO64;
    var lo, hi := U32(Le64(v), 0), U32(Le64(v), 4);
    assert lo == u % TWO32 && hi == u / TWO32;
    assert u == lo + TWO32 * hi;
    assert U64(Le64(v), 0) == u;
    TwosComplement(v);
  }

  lemma TwosComplement(v: int)
    requires IsInt64(v)
    ensures 0 <= v ==> v % TWO64 == v
    ensures v < 0 ==> v % TWO64 == v + TWO64
  {
    if v < 0 {
      assert v == TWO64 * (-1) + (v + TWO64);
    }
  }
}
