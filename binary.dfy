/**
 * Byte-level building blocks shared by the archive codec and the sound-bank
 * patcher: the byte type, little-endian 32-bit integers as `struct` packs
 * them ("<i"), round-up alignment, and the effect of Python's `seek` + `read`
 * and `seek` + `write` on a file whose contents are a byte sequence.
 */
module Binary {

  type byte = x: int | 0 <= x < 256

  const TwoTo31: int := 0x8000_0000
  const TwoTo32: int := 0x1_0000_0000

  /** The range `struct.pack("<i", v)` accepts; other values raise struct.error. */
  predicate Fits32(v: int) {
    -TwoTo31 <= v < TwoTo31
  }

  function Zeros(n: nat): (z: seq<byte>)
    ensures |z| == n
    ensures forall i :: 0 <= i < n ==> z[i] == 0
  {
    if n == 0 then [] else Zeros(n - 1) + [0]
  }

  /**
   * The least multiple of m that is at least x, by floor division. The
   * archive rounds to 16 (offsets, table records, total size) and to 4 (the
   * name field width).
   */
  function AlignUp(x: int, m: int): (r: int)
    requires m == 4 || m == 16
    ensures r % m == 0
    ensures x <= r < x + m
  {
    ((x + m - 1) / m) * m
  }

  /** A multiple of m lying in [x, AlignUp(x, m)] is AlignUp(x, m) itself. */
  lemma {:induction false} AlignUpLeast(x: int, m: int, y: int)
    requires m == 4 || m == 16
    requires y % m == 0 && x <= y <= AlignUp(x, m)
    ensures y == AlignUp(x, m)
  {
  }

  /** An aligned value is its own round-up. */
  lemma {:induction false} AlignUpAligned(x: int, m: int)
    requires m == 4 || m == 16
    requires x % m == 0
    ensures AlignUp(x, m) == x
  {
    AlignUpLeast(x, m, x);
  }

  /** Number of zero bytes the writer adds, one at a time, until the position is a multiple of 16. */
  function PadLength(n: int): (k: nat)
    ensures (n + k) % 16 == 0 && k < 16
  {
    AlignUp(n, 16) - n
  }

  /** `out` followed by the zero bytes that bring its length to a multiple of 16. */
  function Padded(out: seq<byte>): (r: seq<byte>)
    ensures |r| % 16 == 0 && |out| <= |r| < |out| + 16
    ensures r[..|out|] == out
    ensures forall i :: |out| <= i < |r| ==> r[i] == 0
  {
    out + Zeros(PadLength(|out|))
  }

  /** Value of the four bytes at pos read as an unsigned little-endian integer. */
  function U32At(s: seq<byte>, pos: int): (v: int)
    requires 0 <= pos && pos + 4 <= |s|
    ensures 0 <= v < TwoTo32
  {
    s[pos] as int + 256 * (s[pos + 1] as int + 256 * (s[pos + 2] as int + 256 * s[pos + 3] as int))
  }

  /** `struct.unpack("<i", s[pos:pos+4])[0]`, and 0 where fewer than four bytes remain. */
  function I32At(s: seq<byte>, pos: int): (v: int)
    ensures Fits32(v)
  {
    if pos < 0 || pos + 4 > |s| then 0
    else
      var u := U32At(s, pos);
      if u >= TwoTo31 then u - TwoTo32 else u
  }

  /** Unpacking the four bytes read at pos is reading the integer at pos. */
  lemma {:induction false} I32AtSlice(s: seq<byte>, pos: int)
    requires 0 <= pos && pos + 4 <= |s|
    ensures I32At(s[pos..pos + 4], 0) == I32At(s, pos)
  {
    assert s[pos..pos + 4][0..4] == s[pos..pos + 4];
  }

  /** The n low-order bytes of u, least significant first. */
  function LeBytes(u: int, n: nat): (b: seq<byte>)
    decreases n
    ensures |b| == n
  {
    if n == 0 then [] else [(u % 256) as byte] + LeBytes(u / 256, n - 1)
  }

  /** Four bytes written by LeBytes read back as the value written. */
  lemma {:induction false} LeBytesValue(u: int)
    requires 0 <= u < TwoTo32
    ensures U32At(LeBytes(u, 4), 0) == u
  {
    var b := LeBytes(u, 4);
    var q0 := u / 256;
    var q1 := q0 / 256;
    var q2 := q1 / 256;
    assert b == [(u % 256) as byte] + LeBytes(q0, 3);
    assert LeBytes(q0, 3) == [(q0 % 256) as byte] + LeBytes(q1, 2);
    assert LeBytes(q1, 2) == [(q1 % 256) as byte] + LeBytes(q2, 1);
    assert LeBytes(q2, 1) == [(q2 % 256) as byte] + LeBytes(q2 / 256, 0);
    assert b[0] as int == u % 256 && b[1] as int == q0 % 256 && b[2] as int == q1 % 256 && b[3] as int == q2 % 256;
    assert q2 < 256;
  }

  /** `struct.pack("<i", v)`: two's complement, least significant byte first.
      Values outside Fits32 make `struct` raise; for them the low 32 bits are kept. */
  function Le32(v: int): (b: seq<byte>)
    ensures |b| == 4
  {
    LeBytes(v % TwoTo32, 4)
  }

  /** `struct.pack("<i", v)` for each v in turn, as consecutive writes produce. */
  function PackI32s(vs: seq<int>): (b: seq<byte>)
    ensures |b| == 4 * |vs|
  {
    if |vs| == 0 then [] else Le32(vs[0]) + PackI32s(vs[1..])
  }

  /** Unpacking what packing wrote gives the value back. */
  lemma {:induction false} Le32Reads(v: int)
    requires Fits32(v)
    ensures I32At(Le32(v), 0) == v
  {
    var u := v % TwoTo32;
    assert u == if v < 0 then v + TwoTo32 else v;
    LeBytesValue(u);
  }

  /** The integer at pos of a is unchanged when more bytes follow a. */
  lemma {:induction false} I32AtPrefix(a: seq<byte>, b: seq<byte>, pos: int)
    requires 0 <= pos && pos + 4 <= |a|
    ensures I32At(a + b, pos) == I32At(a, pos)
  {
    assert (a + b)[pos..pos + 4] == a[pos..pos + 4];
    I32AtSlice(a + b, pos);
    I32AtSlice(a, pos);
  }

  /** The integer at pos of b lies |a| bytes further on in a + b. */
  lemma {:induction false} I32AtSuffix(a: seq<byte>, b: seq<byte>, pos: int)
    requires 0 <= pos && pos + 4 <= |b|
    ensures I32At(a + b, |a| + pos) == I32At(b, pos)
  {
    assert (a + b)[|a| + pos..|a| + pos + 4] == b[pos..pos + 4];
    I32AtSlice(a + b, |a| + pos);
    I32AtSlice(b, pos);
  }

  /** The integer at pos of the len bytes cut from s at at is the integer at at + pos of s. */
  lemma {:induction false} I32AtWithin(s: seq<byte>, at: int, len: int, pos: int)
    requires 0 <= at && at + len <= |s| && 0 <= pos && pos + 4 <= len
    ensures I32At(s[at..at + len], pos) == I32At(s, at + pos)
  {
    var cut := s[at..at + len];
    assert cut[pos] == s[at + pos] && cut[pos + 1] == s[at + pos + 1];
    assert cut[pos + 2] == s[at + pos + 2] && cut[pos + 3] == s[at + pos + 3];
  }

  /** Unpacking the packed integers at 4 * j gives back the j-th one. */
  lemma {:induction false} PackI32sReads(vs: seq<int>, j: nat)
    requires j < |vs| && Fits32(vs[j])
    ensures I32At(PackI32s(vs), 4 * j) == vs[j]
  {
    if j == 0 {
      I32AtPrefix(Le32(vs[0]), PackI32s(vs[1..]), 0);
      Le32Reads(vs[0]);
    } else {
      PackI32sReads(vs[1..], j - 1);
      I32AtSuffix(Le32(vs[0]), PackI32s(vs[1..]), 4 * (j - 1));
    }
  }

  /** Clamps a stream position to the bounds of a file of length len. */
  function Clamp(p: int, len: nat): (r: nat)
    ensures r <= len
    ensures 0 <= p <= len ==> r == p
  {
    if p < 0 then 0 else if p > len then len else p
  }

  /**
   * `f.seek(pos); f.read(n)` on a file holding s: at most n bytes from pos,
   * fewer at end of file, and everything up to end of file when n is -1.
   * A count below -1 makes Python raise ValueError; callers decide that case
   * before reading.
   */
  function ReadAt(s: seq<byte>, pos: nat, n: int): (r: seq<byte>)
    requires n >= -1
    ensures n >= 0 && pos + n <= |s| ==> r == s[pos..pos + n]
    ensures n >= 0 && pos <= |s| < pos + n ==> r == s[pos..]
    ensures n >= 0 ==> |r| <= n
    ensures n == -1 && pos <= |s| ==> r == s[pos..]
  {
    var lo := Clamp(pos, |s|);
    var hi := if n == -1 then |s| else Clamp(pos + n, |s|);
    s[lo..hi]
  }

  /** The bytes between positions a and b of s, both clamped to the file. */
  function Slice(s: seq<byte>, a: int, b: int): (r: seq<byte>)
    ensures 0 <= a <= b <= |s| ==> r == s[a..b]
    ensures |r| <= |s|
  {
    var lo := Clamp(a, |s|);
    var hi := Clamp(b, |s|);
    if hi <= lo then [] else s[lo..hi]
  }

  /**
   * `f.seek(pos); f.write(bytes)` on a file holding s opened "rb+": the bytes
   * overwrite what is there, and a write past the end first fills the gap with
   * zeros and extends the file.
   */
  function WriteAt(s: seq<byte>, pos: nat, bytes: seq<byte>): (r: seq<byte>)
    ensures |r| == if pos + |bytes| > |s| then pos + |bytes| else |s|
    ensures r[pos..pos + |bytes|] == bytes
    ensures forall i :: 0 <= i < |r| && !(pos <= i < pos + |bytes|) ==>
                          r[i] == if i < |s| then s[i] else 0
  {
    var front := if pos <= |s| then s[..pos] else s + Zeros(pos - |s|);
    var back := if pos + |bytes| < |s| then s[pos + |bytes|..] else [];
    assert |front| == pos;
    front + bytes + back
  }

  /** Writing back bytes that are already in place leaves the file unchanged. */
  lemma {:induction false} WriteAtSame(s: seq<byte>, pos: nat, bytes: seq<byte>)
    requires pos + |bytes| <= |s| && s[pos..pos + |bytes|] == bytes
    ensures WriteAt(s, pos, bytes) == s
  {
    var r := WriteAt(s, pos, bytes);
    assert |r| == |s|;
    forall i | 0 <= i < |s| ensures r[i] == s[i] {
      if pos <= i < pos + |bytes| {
        assert r[i] == r[pos..pos + |bytes|][i - pos];
        assert s[i] == s[pos..pos + |bytes|][i - pos];
      }
    }
  }

  predicate IsAscii(b: byte) {
    b < 128
  }

  /** Every byte is ASCII (`bytes.decode("ASCII")` succeeds), checked from the first byte on. */
  predicate AllAscii(bs: seq<byte>) {
    |bs| == 0 || (IsAscii(bs[0]) && AllAscii(bs[1..]))
  }

  lemma {:induction false} AllAsciiEach(bs: seq<byte>)
    ensures AllAscii(bs) <==> forall i :: 0 <= i < |bs| ==> IsAscii(bs[i])
  {
    if |bs| > 0 {
      AllAsciiEach(bs[1..]);
      assert forall i :: 1 <= i < |bs| ==> bs[i] == bs[1..][i - 1];
    }
  }

  /** `bytes.decode("ASCII")`, for bytes that are all ASCII. */
  function AsciiDecode(bs: seq<byte>): (s: string)
    ensures |s| == |bs|
  {
    if |bs| == 0 then [] else [bs[0] as char] + AsciiDecode(bs[1..])
  }

  /** Each character decoded has the code point of its byte. */
  lemma {:induction false} AsciiDecodeAt(bs: seq<byte>)
    ensures forall i :: 0 <= i < |bs| ==> AsciiDecode(bs)[i] as int == bs[i] as int
  {
    if |bs| > 0 {
      AsciiDecodeAt(bs[1..]);
      assert forall i :: 1 <= i < |bs| ==> AsciiDecode(bs)[i] == AsciiDecode(bs[1..])[i - 1];
    }
  }

  predicate AsciiChars(s: string) {
    forall i :: 0 <= i < |s| ==> s[i] as int < 128
  }

  /** `str.encode("ASCII")`. Strings with a non-ASCII character make Python
      raise; for them each code point is cut to its low byte. */
  function AsciiEncode(s: string): (bs: seq<byte>)
    ensures |bs| == |s|
  {
    if |s| == 0 then [] else [(s[0] as int % 256) as byte] + AsciiEncode(s[1..])
  }

  /** Each byte of the encoding is the low byte of the character's code point. */
  lemma {:induction false} AsciiEncodeAt(s: string)
    ensures forall i :: 0 <= i < |s| ==> AsciiEncode(s)[i] as int == s[i] as int % 256
  {
    if |s| > 0 {
      AsciiEncodeAt(s[1..]);
      assert forall i :: 1 <= i < |s| ==> AsciiEncode(s)[i] == AsciiEncode(s[1..])[i - 1];
    }
  }

  /** Decoding two byte strings one after the other decodes their concatenation. */
  lemma {:induction false} AsciiDecodeAppend(x: seq<byte>, y: seq<byte>)
    ensures AsciiDecode(x + y) == AsciiDecode(x) + AsciiDecode(y)
  {
    if |x| > 0 {
      assert (x + y)[1..] == x[1..] + y;
      AsciiDecodeAppend(x[1..], y);
    } else {
      assert x + y == y;
    }
  }

  /** Encoding an ASCII string gives ASCII bytes that decode back to it. */
  lemma {:induction false} AsciiRoundTrip(s: string)
    requires AsciiChars(s)
    ensures AllAscii(AsciiEncode(s)) && AsciiDecode(AsciiEncode(s)) == s
  {
    var bs := AsciiEncode(s);
    AsciiEncodeAt(s);
    AsciiDecodeAt(bs);
    assert forall i :: 0 <= i < |s| ==> AsciiDecode(bs)[i] == s[i];
    AllAsciiEach(bs);
  }
}
