/**
 * The FPAC archive format as `config/utils/pacfile.py` reads and writes it:
 * what parsing yields from a byte sequence, what `recalculate_values` derives,
 * and the exact bytes `replace` writes. The class in module PacFile runs these
 * steps imperatively and is proved against the functions here.
 *
 * Header (little-endian): magic "FPAC" | start_offset | file_size | count |
 * (skipped int) | name_length | 8 skipped bytes, then `count` table records of
 * name (name_length bytes) | id | offset relative to start_offset | size.
 */
module PacLayout {
  import opened Binary
  import opened Text

  /** One table record (`File` in the source): offsets are absolute. */
  datatype Entry = Entry(name: string, id: int, offset: int, size: int)

  /** The values the constructor of `FileHeader` reads. */
  datatype Table = Table(startOffset: int, fileSize: int, countOfFiles: int, nameLength: int, files: seq<Entry>)

  /**
   * Why parsing fails: the magic word differs from "FPAC" (BadArgument), a
   * byte that is decoded as ASCII is not ASCII (UnicodeDecodeError), an
   * integer field lies past the end of the file (struct.error), or a name is
   * read with a count below -1 (the ValueError of `read`).
   */
  datatype PacError = BadMagic | NotAscii | Truncated | BadReadLength

  datatype Result<+T> = Ok(value: T) | Err(error: PacError)

  const Magic: seq<byte> := [0x46, 0x50, 0x41, 0x43]
  const HeaderSize: int := 32
  const BufferSize: int := 1048576

  // ---------------------------------------------------------------------
  // Parsing (FileHeader.__init__)
  // ---------------------------------------------------------------------

  /** Bytes from one record to the next as the parser moves: it reads the
      name and three integers, then seeks `4 - name_length % 4` further. */
  function ReadStride(nameLength: int): int {
    nameLength + 12 + (4 - nameLength % 4)
  }

  /** Where the parser stands when it reads record k. */
  function RecordPos(k: nat, nameLength: int): int {
    if k == 0 then HeaderSize else RecordPos(k - 1, nameLength) + ReadStride(nameLength)
  }

  /** `.replace("\0", "")`: the string with every NUL character removed. */
  function StripNul(s: string): (r: string) {
    if s == [] then []
    else (if s[0] == '\0' then [] else [s[0]]) + StripNul(s[1..])
  }

  /** StripNul leaves no NUL, never lengthens, and keeps a string without NULs. */
  lemma {:induction false} StripNulRemoves(s: string)
    ensures '\0' !in StripNul(s)
    ensures |StripNul(s)| <= |s|
    ensures '\0' !in s ==> StripNul(s) == s
  {
    if s != [] {
      StripNulRemoves(s[1..]);
      if '\0' !in s {
        assert '\0' !in s[1..] by {
          forall j | 0 <= j < |s[1..]| ensures s[1..][j] != '\0' {
            assert s[1..][j] == s[j + 1];
          }
        }
      }
    }
  }

  /** StripNul works piece by piece. */
  lemma {:induction false} StripNulAppend(x: string, y: string)
    ensures StripNul(x + y) == StripNul(x) + StripNul(y)
  {
    if x != [] {
      assert (x + y)[1..] == x[1..] + y;
      StripNulAppend(x[1..], y);
    } else {
      assert x + y == y;
    }
  }

  /** A string of NULs strips to nothing. */
  lemma {:induction false} StripNulAllNul(s: string)
    requires forall i :: 0 <= i < |s| ==> s[i] == '\0'
    ensures StripNul(s) == []
  {
    if s != [] {
      StripNulAllNul(s[1..]);
    }
  }

  /** Bytes the parser reads as the name of the record at pos: `read(n)` with
      n == -1 reads to the end of the file (a smaller n raises, see RecordFault). */
  function NameBytes(s: seq<byte>, pos: int, nameLength: int): seq<byte> {
    if nameLength < 0 then Slice(s, pos, |s|) else Slice(s, pos, pos + nameLength)
  }

  /** Whether reading the record at pos raises, and with what. */
  function RecordFault(s: seq<byte>, pos: int, nameLength: int): (f: Option<PacError>)
    ensures f.None? ==> nameLength >= 0 && pos + nameLength + 12 <= |s|
  {
    if nameLength < -1 then Some(BadReadLength)
    else if !AllAscii(NameBytes(s, pos, nameLength)) then Some(NotAscii)
    else if nameLength < 0 || pos + nameLength + 12 > |s| then Some(Truncated)
    else None
  }

  /** The entry read from the record at pos; its offset is the stored one plus
      start_offset, rounded up to a multiple of 16. */
  function RecordEntry(s: seq<byte>, pos: int, nameLength: int, startOffset: int): (e: Entry) {
    Entry(StripNul(AsciiDecode(NameBytes(s, pos, nameLength))),
          I32At(s, pos + nameLength),
          AlignUp(I32At(s, pos + nameLength + 4) + startOffset, 16),
          I32At(s, pos + nameLength + 8))
  }

  /** `read(name_length)` at pos yields the name bytes of the record. */
  lemma {:induction false} ReadName(s: seq<byte>, pos: nat, nameLength: int)
    requires nameLength >= -1
    ensures ReadAt(s, pos, nameLength) == NameBytes(s, pos, nameLength)
  {
  }

  /** A field read that comes back short makes the record truncated. */
  lemma {:induction false} ShortField(s: seq<byte>, pos: nat, nameLength: int, name: seq<byte>, field: nat)
    requires nameLength >= -1 && name == NameBytes(s, pos, nameLength) && AllAscii(name) && field <= 8
    requires pos + |name| + field + 4 > |s|
    ensures RecordFault(s, pos, nameLength) == Some(Truncated)
  {
  }

  /** A full four-byte read at `at` lies inside s and unpacks to the integer stored there. */
  lemma {:induction false} FieldRead(s: seq<byte>, at: nat, bytes: seq<byte>)
    requires bytes == ReadAt(s, at, 4) && |bytes| == 4
    ensures at + 4 <= |s| && I32At(bytes, 0) == I32At(s, at)
  {
    I32AtSlice(s, at);
  }

  /** A read that ends four bytes before the end of s got the whole name field. */
  lemma {:induction false} NameWhole(s: seq<byte>, pos: nat, nameLength: int, name: seq<byte>)
    requires name == NameBytes(s, pos, nameLength) && pos + |name| + 4 <= |s|
    ensures nameLength >= 0 && |name| == nameLength
  {
  }

  /** An ASCII name and three integer fields inside s: the record reads
      without fault and gives the entry of those values. */
  lemma {:induction false} FullRecord(s: seq<byte>, pos: nat, nameLength: int, startOffset: int,
                                      name: seq<byte>, id: int, offset: int, size: int)
    requires name == NameBytes(s, pos, nameLength) && AllAscii(name)
    requires nameLength >= 0 && pos + nameLength + 12 <= |s|
    requires id == I32At(s, pos + nameLength) && offset == I32At(s, pos + nameLength + 4)
    requires size == I32At(s, pos + nameLength + 8)
    ensures RecordFault(s, pos, nameLength).None?
    ensures RecordEntry(s, pos, nameLength, startOffset)
      == Entry(StripNul(AsciiDecode(name)), id, AlignUp(offset + startOffset, 16), size)
  {
  }

  /** The fault of the first of records k .. count-1 that has one. */
  function FirstFault(s: seq<byte>, k: nat, count: int, nameLength: int): Option<PacError>
    decreases count - k
  {
    if k >= count then None
    else match RecordFault(s, RecordPos(k, nameLength), nameLength)
      case Some(e) => Some(e)
      case None => FirstFault(s, k + 1, count, nameLength)
  }

  /** With no fault among records k .. count-1, each of them lies inside s. */
  lemma {:induction false} NoFaultInBounds(s: seq<byte>, k: nat, count: int, nameLength: int, j: nat)
    requires FirstFault(s, k, count, nameLength).None?
    requires k <= j < count
    ensures RecordFault(s, RecordPos(j, nameLength), nameLength).None?
    ensures nameLength >= 0 && RecordPos(j, nameLength) + nameLength + 12 <= |s|
    decreases j - k
  {
    if j > k {
      NoFaultInBounds(s, k + 1, count, nameLength, j);
    }
  }

  function Max(a: int, b: int): int {
    if a < b then b else a
  }

  /** The entries of the first k records. */
  function Entries(s: seq<byte>, k: nat, nameLength: int, startOffset: int): (files: seq<Entry>)
    ensures |files| == k
  {
    if k == 0 then []
    else Entries(s, k - 1, nameLength, startOffset) + [RecordEntry(s, RecordPos(k - 1, nameLength), nameLength, startOffset)]
  }

  /** Every entry read has a name without NUL and an offset aligned to 16. */
  lemma {:induction false} EntriesClean(s: seq<byte>, k: nat, nameLength: int, startOffset: int)
    ensures forall e :: e in Entries(s, k, nameLength, startOffset) ==> '\0' !in e.name && e.offset % 16 == 0
  {
    if k > 0 {
      var prev := Entries(s, k - 1, nameLength, startOffset);
      var pos := RecordPos(k - 1, nameLength);
      var last := RecordEntry(s, pos, nameLength, startOffset);
      EntriesClean(s, k - 1, nameLength, startOffset);
      RecordEntryClean(s, pos, nameLength, startOffset);
      forall e | e in prev + [last] ensures '\0' !in e.name && e.offset % 16 == 0 {
        if e != last {
          assert e in prev;
        }
      }
    }
  }

  lemma {:induction false} RecordEntryClean(s: seq<byte>, pos: int, nameLength: int, startOffset: int)
    ensures '\0' !in RecordEntry(s, pos, nameLength, startOffset).name
    ensures RecordEntry(s, pos, nameLength, startOffset).offset % 16 == 0
  {
    StripNulRemoves(AsciiDecode(NameBytes(s, pos, nameLength)));
  }

  /** The entries of all `count` records (none for a negative count). */
  function RecordEntries(s: seq<byte>, count: int, nameLength: int, startOffset: int): (files: seq<Entry>) {
    Entries(s, Max(count, 0), nameLength, startOffset)
  }

  /** Past a record that reads without fault, the first fault is among the
      later records, the next record begins one stride on, and the entry read
      extends the entries read so far. */
  lemma {:induction false} ReadStep(s: seq<byte>, count: int, nameLength: int, startOffset: int,
                                    k: nat, files: seq<Entry>, e: Entry)
    requires k < count && RecordFault(s, RecordPos(k, nameLength), nameLength).None?
    requires files == Entries(s, k, nameLength, startOffset)
    requires e == RecordEntry(s, RecordPos(k, nameLength), nameLength, startOffset)
    ensures FirstFault(s, k, count, nameLength) == FirstFault(s, k + 1, count, nameLength)
    ensures nameLength >= 0 && RecordPos(k + 1, nameLength) == RecordPos(k, nameLength) + ReadStride(nameLength)
    ensures files + [e] == Entries(s, k + 1, nameLength, startOffset)
  {
  }

  /** A record that reads with a fault is the first fault from there on. */
  lemma {:induction false} ReadFails(s: seq<byte>, count: int, nameLength: int, k: nat)
    requires k < count && RecordFault(s, RecordPos(k, nameLength), nameLength).Some?
    ensures FirstFault(s, k, count, nameLength) == RecordFault(s, RecordPos(k, nameLength), nameLength)
  {
  }

  /** Once all `count` records are read there is no fault left to meet. */
  lemma {:induction false} ReadDone(s: seq<byte>, count: int, nameLength: int, startOffset: int, k: nat)
    requires k <= Max(count, 0) && k >= count
    ensures FirstFault(s, k, count, nameLength).None?
    ensures Entries(s, k, nameLength, startOffset) == RecordEntries(s, count, nameLength, startOffset)
  {
  }

  /** The result of constructing a `FileHeader` from the bytes s. */
  function Parse(s: seq<byte>): (r: Result<Table>)
    ensures r.Ok? ==> Slice(s, 0, 4) == Magic && |s| >= HeaderSize - 8
    ensures Slice(s, 0, 4) != Magic ==> r.Err? && (r.error == BadMagic || r.error == NotAscii)
    ensures r.Ok? ==> |r.value.files| == Max(r.value.countOfFiles, 0)
    ensures r.Ok? ==> forall e :: e in r.value.files ==> '\0' !in e.name && e.offset % 16 == 0
    ensures r.Ok? ==> forall k :: 0 <= k < r.value.countOfFiles ==>
              0 <= r.value.nameLength && RecordPos(k, r.value.nameLength) + r.value.nameLength + 12 <= |s|
    ensures Slice(s, 0, 4) == Magic && |s| >= 24 && I32At(s, 12) > 0 && I32At(s, 20) < -1 ==> r == Err(BadReadLength)
  {
    var magic := Slice(s, 0, 4);
    if !AllAscii(magic) then Err(NotAscii)
    else if magic != Magic then Err(BadMagic)
    else if |s| < 24 then Err(Truncated)
    else
      var startOffset, fileSize, count, nameLength := I32At(s, 4), I32At(s, 8), I32At(s, 12), I32At(s, 20);
      match FirstFault(s, 0, count, nameLength)
      case Some(e) => Err(e)
      case None =>
        assert forall k :: 0 <= k < count ==> 0 <= nameLength && RecordPos(k, nameLength) + nameLength + 12 <= |s| by {
          forall k | 0 <= k < count ensures 0 <= nameLength && RecordPos(k, nameLength) + nameLength + 12 <= |s| {
            NoFaultInBounds(s, 0, count, nameLength, k);
          }
        }
        EntriesClean(s, Max(count, 0), nameLength, startOffset);
        Ok(Table(startOffset, fileSize, count, nameLength, RecordEntries(s, count, nameLength, startOffset)))
  }

  /** Reading the table never fails on the magic. */
  lemma {:induction false} FirstFaultNotMagic(s: seq<byte>, k: nat, count: int, nameLength: int)
    ensures FirstFault(s, k, count, nameLength) != Some(BadMagic)
    decreases count - k
  {
    if k < count && RecordFault(s, RecordPos(k, nameLength), nameLength).None? {
      FirstFaultNotMagic(s, k + 1, count, nameLength);
    }
  }

  /**
   * The first four bytes decide the first two outcomes: non-ASCII bytes give
   * NotAscii, other bytes than "FPAC" give BadMagic, and BadMagic arises in
   * no other way.
   */
  lemma {:induction false} ParseChecksMagic(s: seq<byte>)
    ensures !AllAscii(Slice(s, 0, 4)) ==> Parse(s) == Err(NotAscii)
    ensures Parse(s) == Err(BadMagic) <==> AllAscii(Slice(s, 0, 4)) && Slice(s, 0, 4) != Magic
  {
    if AllAscii(Slice(s, 0, 4)) && Slice(s, 0, 4) == Magic && |s| >= 24 {
      FirstFaultNotMagic(s, 0, I32At(s, 12), I32At(s, 20));
    }
  }

  // ---------------------------------------------------------------------
  // Layout recomputation (FileHeader.recalculate_values)
  // ---------------------------------------------------------------------

  /** The length of the longest entry name. */
  function MaxNameLength(files: seq<Entry>): (m: nat)
    requires |files| > 0
    ensures forall i :: 0 <= i < |files| ==> |files[i].name| <= m
    ensures exists i :: 0 <= i < |files| && |files[i].name| == m
  {
    if |files| == 1 then |files[0].name|
    else
      var rest := MaxNameLength(files[1..]);
      assert forall i :: 1 <= i < |files| ==> files[i] == files[1..][i - 1];
      if |files[0].name| < rest then rest else |files[0].name|
  }

  /** Size of one written table record: name field and four integers, rounded up to 16. */
  function RecordSize(nameLength: int): int {
    AlignUp(nameLength + 16, 16)
  }

  /** With a name field that is a multiple of 4, the parser moves name_length
      + 16 bytes per record, which is the written record size exactly when the
      name field is a multiple of 16. */
  lemma {:induction false} StridesAgree(nameLength: int)
    requires nameLength % 4 == 0
    ensures ReadStride(nameLength) == nameLength + 16
    ensures ReadStride(nameLength) == RecordSize(nameLength) <==> nameLength % 16 == 0
  {
    if nameLength % 16 == 0 {
      AlignUpAligned(nameLength + 16, 16);
    }
  }

  /** With a name field that is a multiple of 16, the parser reads record k
      where `replace` wrote it. */
  lemma {:induction false} ReadWhereWritten(k: nat, nameLength: int)
    requires nameLength % 16 == 0
    ensures RecordPos(k, nameLength) == HeaderSize + k * RecordSize(nameLength)
  {
    StridesAgree(nameLength);
    if k > 0 {
      ReadWhereWritten(k - 1, nameLength);
      assert (k - 1) * RecordSize(nameLength) + RecordSize(nameLength) == k * RecordSize(nameLength);
    }
  }

  /** Offsets chain from start: each entry begins at the previous one's end
      rounded up to 16. */
  predicate Chained(files: seq<Entry>, start: int) {
    && (|files| > 0 ==> files[0].offset == start)
    && (forall i :: 1 <= i < |files| ==> Follows(files, i))
  }

  /** Entry i begins at the end of entry i - 1 rounded up to 16. */
  predicate Follows(files: seq<Entry>, i: int)
    requires 1 <= i < |files|
  {
    files[i].offset == AlignUp(files[i - 1].offset + files[i - 1].size, 16)
  }

  /** after is before with only the offsets changed, chained from start. */
  predicate IsLayout(before: seq<Entry>, after: seq<Entry>, start: int) {
    && |after| == |before|
    && (forall i :: 0 <= i < |before| ==> after[i] == before[i].(offset := after[i].offset))
    && Chained(after, start)
  }

  /** The end of the last entry rounded up to 16: the written file size. */
  function LayoutEnd(files: seq<Entry>): int
    requires |files| > 0
  {
    AlignUp(files[|files| - 1].offset + files[|files| - 1].size, 16)
  }

  /** The header state after `recalculate_values` on the entries before. */
  predicate Recalculated(before: seq<Entry>, after: seq<Entry>, nameLength: int, startOffset: int, fileSize: int) {
    && |before| > 0
    && nameLength == AlignUp(MaxNameLength(before) + 1, 4)
    && startOffset == AlignUp(HeaderSize + |before| * RecordSize(nameLength), 16)
    && IsLayout(before, after, startOffset)
    && fileSize == LayoutEnd(after)
  }

  predicate SizesNonNegative(files: seq<Entry>) {
    forall i :: 0 <= i < |files| ==> files[i].size >= 0
  }

  /** Along a chain with non-negative sizes, entry i ends before entry j starts. */
  lemma {:induction false} ChainedOrdered(files: seq<Entry>, start: int, i: nat, j: nat)
    requires Chained(files, start) && SizesNonNegative(files)
    requires i < j < |files|
    ensures files[i].offset + files[i].size <= files[j].offset
    decreases j - i
  {
    assert Follows(files, j);
    if j > i + 1 {
      ChainedOrdered(files, start, i, j - 1);
    }
  }

  /** What `recalculate_values` guarantees about the widths it computes: the
      name field is the least multiple of 4 that leaves every name at least one
      NUL byte, and the payloads start right after the padded table. */
  lemma {:induction false} RecalculatedWidths(before: seq<Entry>, after: seq<Entry>, nameLength: int, startOffset: int, fileSize: int)
    requires Recalculated(before, after, nameLength, startOffset, fileSize)
    ensures nameLength % 4 == 0 && nameLength - 4 <= MaxNameLength(before)
    ensures forall i :: 0 <= i < |after| ==> |after[i].name| < nameLength
    ensures startOffset % 16 == 0 && startOffset == HeaderSize + |after| * RecordSize(nameLength)
  {
    var m := HeaderSize + |after| * RecordSize(nameLength);
    SpanAligned(HeaderSize, |after|, RecordSize(nameLength));
    AlignUpAligned(m, 16);
    forall i | 0 <= i < |after| ensures |after[i].name| < nameLength {
      assert after[i].name == before[i].name;
    }
  }

  /** What `recalculate_values` guarantees about the offsets it computes: all
      are multiples of 16, and when no size is negative the entries follow one
      another without overlap, from start_offset up to file_size. */
  lemma {:induction false} RecalculatedOffsets(before: seq<Entry>, after: seq<Entry>, nameLength: int, startOffset: int, fileSize: int)
    requires Recalculated(before, after, nameLength, startOffset, fileSize)
    ensures forall i :: 0 <= i < |after| ==> after[i].offset % 16 == 0
    ensures fileSize % 16 == 0
    ensures SizesNonNegative(before) ==>
              && (forall i :: 0 <= i < |after| ==> startOffset <= after[i].offset)
              && (forall i, j :: 0 <= i < j < |after| ==> after[i].offset + after[i].size <= after[j].offset)
              && (forall i :: 0 <= i < |after| ==> after[i].offset + after[i].size <= fileSize)
  {
    var n := |after|;
    forall i | 0 <= i < n ensures after[i].offset % 16 == 0 {
      if i > 0 {
        assert Follows(after, i);
      }
    }
    if SizesNonNegative(before) {
      assert SizesNonNegative(after) by {
        forall i | 0 <= i < n ensures after[i].size >= 0 {
          assert after[i].size == before[i].size;
        }
      }
      forall i, j | 0 <= i < j < n ensures after[i].offset + after[i].size <= after[j].offset {
        ChainedOrdered(after, startOffset, i, j);
      }
      forall i | 0 <= i < n ensures startOffset <= after[i].offset {
        if i > 0 { ChainedOrdered(after, startOffset, 0, i); }
      }
      forall i | 0 <= i < n ensures after[i].offset + after[i].size <= fileSize {
        if i < n - 1 { ChainedOrdered(after, startOffset, i, n - 1); }
      }
    }
  }

  /** The layout is a function of the entries and the start offset. */
  lemma {:induction false} LayoutUnique(before: seq<Entry>, a: seq<Entry>, b: seq<Entry>, start: int)
    requires IsLayout(before, a, start) && IsLayout(before, b, start)
    ensures a == b
  {
    var n := |before|;
    var k := 0;
    while k < n
      invariant 0 <= k <= n
      invariant forall i :: 0 <= i < k ==> a[i] == b[i]
    {
      assert a[k] == before[k].(offset := a[k].offset) && b[k] == before[k].(offset := b[k].offset);
      if k > 0 {
        assert Follows(a, k) && Follows(b, k);
      }
      k := k + 1;
    }
  }

  // ---------------------------------------------------------------------
  // The bytes `replace` writes
  // ---------------------------------------------------------------------

  /** The size field of every entry whose id is targetId set to n
      (pacfile.py:104-106). */
  function WithSize(files: seq<Entry>, targetId: int, n: int): (r: seq<Entry>)
    ensures |r| == |files|
    ensures forall i :: 0 <= i < |files| ==>
              r[i] == if files[i].id == targetId then files[i].(size := n) else files[i]
  {
    seq(|files|, i requires 0 <= i < |files| =>
      if files[i].id == targetId then files[i].(size := n) else files[i])
  }

  function Offsets(files: seq<Entry>): (r: seq<int>)
    ensures |r| == |files| && forall i :: 0 <= i < |files| ==> r[i] == files[i].offset
  {
    seq(|files|, i requires 0 <= i < |files| => files[i].offset)
  }

  predicate RecordPackable(e: Entry, startOffset: int) {
    AsciiChars(e.name) && Fits32(e.id) && Fits32(e.offset - startOffset) && Fits32(e.size)
  }

  predicate AllPackable(files: seq<Entry>, startOffset: int) {
    forall i :: 0 <= i < |files| ==> RecordPackable(files[i], startOffset)
  }

  /**
   * Every value `replace` packs fits `struct.pack`, every name encodes as
   * ASCII, and every copied entry is sought at a non-negative position and
   * read with a count of at least -1: the conditions under which the rewrite
   * reaches `os.replace`.
   */
  predicate Writable(files: seq<Entry>, nameLength: int, startOffset: int, fileSize: int,
                     targetId: int, sources: seq<int>) {
    && Fits32(startOffset) && Fits32(fileSize) && Fits32(|files|) && Fits32(nameLength)
    && AllPackable(files, startOffset)
    && SourcesValid(files, sources, targetId)
  }

  /** magic, start_offset, file_size, count, 1, name_length, 8 zero bytes. */
  function HeaderImage(startOffset: int, fileSize: int, count: int, nameLength: int): (h: seq<byte>)
    ensures |h| == HeaderSize
  {
    Magic + PackI32s(HeaderFields(startOffset, fileSize, count, nameLength)) + Zeros(8)
  }

  /** One table record before alignment: name, NUL padding up to the name
      field width, id, offset relative to start_offset, size, 0. */
  function RecordImage(e: Entry, nameLength: int, startOffset: int): (r: seq<byte>)
    ensures |e.name| <= nameLength ==> |r| == nameLength + 16
  {
    AsciiEncode(e.name) + Zeros(Max(0, nameLength - |e.name|))
      + PackI32s(RecordFields(e, startOffset))
  }

  /** The five integers of the header, in the order they are written. */
  function HeaderFields(startOffset: int, fileSize: int, count: int, nameLength: int): seq<int> {
    [startOffset, fileSize, count, 1, nameLength]
  }

  /** Header field j reads back from offset 4 + 4 * j. */
  lemma {:induction false} HeaderField(startOffset: int, fileSize: int, count: int, nameLength: int, j: nat)
    requires j < 5 && Fits32(HeaderFields(startOffset, fileSize, count, nameLength)[j])
    ensures I32At(HeaderImage(startOffset, fileSize, count, nameLength), 4 + 4 * j)
            == HeaderFields(startOffset, fileSize, count, nameLength)[j]
  {
    var vs := HeaderFields(startOffset, fileSize, count, nameLength);
    assert HeaderImage(startOffset, fileSize, count, nameLength) == (Magic + PackI32s(vs)) + Zeros(8);
    PackedAfter(Magic, vs, j);
    I32AtPrefix(Magic + PackI32s(vs), Zeros(8), 4 + 4 * j);
  }

  /** The header begins with the magic and ends with eight zero bytes. */
  lemma {:induction false} HeaderEnds(startOffset: int, fileSize: int, count: int, nameLength: int)
    ensures HeaderImage(startOffset, fileSize, count, nameLength)[..4] == Magic
    ensures HeaderImage(startOffset, fileSize, count, nameLength)[24..] == Zeros(8)
  {
    var packed := PackI32s(HeaderFields(startOffset, fileSize, count, nameLength));
    assert HeaderImage(startOffset, fileSize, count, nameLength) == Magic + (packed + Zeros(8));
  }

  /** Each header field written reads back from the position the parser reads it from. */
  lemma {:induction false} HeaderReadsBack(startOffset: int, fileSize: int, count: int, nameLength: int)
    requires Fits32(startOffset) && Fits32(fileSize) && Fits32(count) && Fits32(nameLength)
    ensures var h := HeaderImage(startOffset, fileSize, count, nameLength);
            && h[..4] == Magic
            && I32At(h, 4) == startOffset && I32At(h, 8) == fileSize && I32At(h, 12) == count
            && I32At(h, 16) == 1 && I32At(h, 20) == nameLength
            && h[24..] == Zeros(8)
  {
    HeaderEnds(startOffset, fileSize, count, nameLength);
    HeaderField(startOffset, fileSize, count, nameLength, 0);
    HeaderField(startOffset, fileSize, count, nameLength, 1);
    HeaderField(startOffset, fileSize, count, nameLength, 2);
    HeaderField(startOffset, fileSize, count, nameLength, 3);
    HeaderField(startOffset, fileSize, count, nameLength, 4);
  }

  /** The name field, the name followed by NUL padding, is ASCII and reads
      back as the name once the NULs are stripped. */
  lemma {:induction false} NameFieldReads(name: string, pad: nat)
    requires AsciiChars(name) && '\0' !in name
    ensures AllAscii(AsciiEncode(name) + Zeros(pad))
    ensures StripNul(AsciiDecode(AsciiEncode(name) + Zeros(pad))) == name
  {
    var encoded := AsciiEncode(name);
    var nuls := AsciiDecode(Zeros(pad));
    AsciiRoundTrip(name);
    AsciiDecodeAppend(encoded, Zeros(pad));
    AsciiDecodeAt(Zeros(pad));
    StripNulAllNul(nuls);
    StripNulAppend(name, nuls);
    StripNulRemoves(name);
    AllAsciiEach(encoded);
    AllAsciiEach(Zeros(pad));
    AllAsciiEach(encoded + Zeros(pad));
  }

  /** r holds e's record: the name bytes decode to the name, the padding up to
      the name field width is zero, and the four integers after the field are
      the id, the offset relative to start_offset, the size and 0. */
  predicate HoldsRecord(r: seq<byte>, e: Entry, nameLength: int, startOffset: int) {
    && |e.name| <= nameLength && |r| == nameLength + 16
    && AsciiDecode(r[..|e.name|]) == e.name
    && (forall i :: |e.name| <= i < nameLength ==> r[i] == 0)
    && I32At(r, nameLength) == e.id && I32At(r, nameLength + 4) == e.offset - startOffset
    && I32At(r, nameLength + 8) == e.size && I32At(r, nameLength + 12) == 0
  }

  /** The name field of a packable entry's record: the name bytes decode to
      the name, the padding is zero, and without NULs in the name the whole
      field reads back as the name. */
  lemma {:induction false} RecordNameReadsBack(e: Entry, nameLength: int, startOffset: int)
    requires RecordPackable(e, startOffset) && |e.name| <= nameLength
    ensures var r := RecordImage(e, nameLength, startOffset);
            && AsciiDecode(r[..|e.name|]) == e.name
            && (forall i :: |e.name| <= i < nameLength ==> r[i] == 0)
            && ('\0' !in e.name ==> AllAscii(r[..nameLength]) && StripNul(AsciiDecode(r[..nameLength])) == e.name)
  {
    var field := AsciiEncode(e.name) + Zeros(nameLength - |e.name|);
    var r := RecordImage(e, nameLength, startOffset);
    assert r[..nameLength] == field;
    assert r[..|e.name|] == AsciiEncode(e.name);
    AsciiRoundTrip(e.name);
    if '\0' !in e.name {
      NameFieldReads(e.name, nameLength - |e.name|);
    }
  }

  /** The j-th integer packed after a prefix lies 4 * j bytes past the prefix. */
  lemma {:induction false} PackedAfter(prefix: seq<byte>, vs: seq<int>, j: nat)
    requires j < |vs| && Fits32(vs[j])
    ensures I32At(prefix + PackI32s(vs), |prefix| + 4 * j) == vs[j]
  {
    PackI32sReads(vs, j);
    I32AtSuffix(prefix, PackI32s(vs), 4 * j);
  }

  /** The four integers after a record's name field, in the order they are written. */
  function RecordFields(e: Entry, startOffset: int): seq<int> {
    [e.id, e.offset - startOffset, e.size, 0]
  }

  /** Record integer j reads back from nameLength + 4 * j. */
  lemma {:induction false} RecordField(e: Entry, nameLength: int, startOffset: int, j: nat)
    requires j < 4 && Fits32(RecordFields(e, startOffset)[j]) && |e.name| <= nameLength
    ensures I32At(RecordImage(e, nameLength, startOffset), nameLength + 4 * j) == RecordFields(e, startOffset)[j]
  {
    var field := AsciiEncode(e.name) + Zeros(nameLength - |e.name|);
    assert RecordImage(e, nameLength, startOffset) == field + PackI32s(RecordFields(e, startOffset));
    PackedAfter(field, RecordFields(e, startOffset), j);
  }

  /** The four integers after the name field of a packable entry's record are
      the id, the offset relative to start_offset, the size and 0. */
  lemma {:induction false} RecordReadsBack(e: Entry, nameLength: int, startOffset: int)
    requires RecordPackable(e, startOffset) && |e.name| <= nameLength
    ensures var r := RecordImage(e, nameLength, startOffset);
            && I32At(r, nameLength) == e.id && I32At(r, nameLength + 4) == e.offset - startOffset
            && I32At(r, nameLength + 8) == e.size && I32At(r, nameLength + 12) == 0
  {
    RecordField(e, nameLength, startOffset, 0);
    RecordField(e, nameLength, startOffset, 1);
    RecordField(e, nameLength, startOffset, 2);
    RecordField(e, nameLength, startOffset, 3);
  }

  /** A packable entry that fits the name field has its record in RecordImage. */
  lemma {:induction false} RecordImageHolds(e: Entry, nameLength: int, startOffset: int)
    requires RecordPackable(e, startOffset) && |e.name| <= nameLength
    ensures HoldsRecord(RecordImage(e, nameLength, startOffset), e, nameLength, startOffset)
  {
    RecordNameReadsBack(e, nameLength, startOffset);
    RecordReadsBack(e, nameLength, startOffset);
  }

  /** The table records `replace` writes, one per entry. */
  function Records(files: seq<Entry>, nameLength: int, startOffset: int): (r: seq<seq<byte>>)
    ensures |r| == |files|
    ensures forall i :: 0 <= i < |files| ==> r[i] == RecordImage(files[i], nameLength, startOffset)
  {
    if |files| == 0 then []
    else Records(files[..|files| - 1], nameLength, startOffset) + [RecordImage(files[|files| - 1], nameLength, startOffset)]
  }

  /** What is written for entry e: the replacement (zero-filled up to the
      declared size) for the target, else `seek(source); read(e.size)` on the
      original archive, which the seek and the read allow only for a
      non-negative source and a size of at least -1. */
  function Chunk(e: Entry, source: int, targetId: int, payload: seq<byte>, archive: seq<byte>): (c: seq<byte>)
    requires e.id != targetId ==> source >= 0 && e.size >= -1
  {
    if e.id == targetId then payload + Zeros(Max(0, e.size - |payload|))
    else ReadAt(archive, source, e.size)
  }

  /** Every entry other than the target is sought at a non-negative position
      and read with a count `read` accepts. */
  predicate SourcesValid(files: seq<Entry>, sources: seq<int>, targetId: int) {
    && |sources| == |files|
    && forall i :: 0 <= i < |files| ==> files[i].id != targetId ==> sources[i] >= 0 && files[i].size >= -1
  }

  /** The payloads `replace` writes, one per entry. */
  function Chunks(files: seq<Entry>, sources: seq<int>, targetId: int, payload: seq<byte>, archive: seq<byte>): (r: seq<seq<byte>>)
    requires SourcesValid(files, sources, targetId)
    ensures |r| == |files|
    ensures forall i :: 0 <= i < |files| ==> r[i] == Chunk(files[i], sources[i], targetId, payload, archive)
  {
    if |files| == 0 then []
    else
      var n := |files| - 1;
      assert SourcesValid(files[..n], sources[..n], targetId);
      Chunks(files[..n], sources[..n], targetId, payload, archive) + [Chunk(files[n], sources[n], targetId, payload, archive)]
  }

  /** out followed by each of the first k parts padded with zeros to a
      multiple of 16: how `replace` writes the table and then the payloads. */
  function PadJoin(out: seq<byte>, parts: seq<seq<byte>>, k: nat): (r: seq<byte>)
    requires k <= |parts|
  {
    if k == 0 then out else Padded(PadJoin(out, parts, k - 1) + parts[k - 1])
  }

  /** The complete file `replace` writes to temp.tmp and renames over the archive. */
  function Image(files: seq<Entry>, nameLength: int, startOffset: int, fileSize: int,
                 targetId: int, sources: seq<int>, payload: seq<byte>, archive: seq<byte>): (r: seq<byte>)
    requires SourcesValid(files, sources, targetId)
  {
    var table := PadJoin(HeaderImage(startOffset, fileSize, |files|, nameLength), Records(files, nameLength, startOffset), |files|);
    PadJoin(table, Chunks(files, sources, targetId, payload, archive), |files|)
  }

  // ---------------------------------------------------------------------
  // Where everything lands in the image
  // ---------------------------------------------------------------------

  /** Padding an aligned prefix followed by n bytes adds the padding of n alone. */
  lemma {:induction false} AlignUpShift(a: int, b: int)
    requires a % 16 == 0
    ensures AlignUp(a + b, 16) == a + AlignUp(b, 16)
  {
    AlignUpLeast(a + b, 16, a + AlignUp(b, 16));
  }

  lemma {:induction false} PaddedLength(out: seq<byte>)
    ensures |Padded(out)| == AlignUp(|out|, 16)
  {
    AlignUpLeast(|out|, 16, |Padded(out)|);
  }

  /** Appending and padding leaves the first n bytes alone. */
  lemma {:induction false} PaddedKeepsPrefix(a: seq<byte>, b: seq<byte>, n: nat)
    requires n <= |a|
    ensures n <= |Padded(a + b)| && Padded(a + b)[..n] == a[..n]
  {
    assert Padded(a + b)[..|a + b|] == a + b;
    assert (a + b)[..n] == a[..n];
  }

  /** Appending and padding puts b right after a. */
  lemma {:induction false} PaddedPlacesTail(a: seq<byte>, b: seq<byte>)
    ensures |a| + |b| <= |Padded(a + b)| && Padded(a + b)[|a|..|a| + |b|] == b
  {
    assert Padded(a + b)[..|a + b|] == a + b;
    assert (a + b)[|a|..|a| + |b|] == b;
  }

  /** Writing more parts never changes the bytes already written. */
  lemma {:induction false} PadJoinPrefix(out: seq<byte>, parts: seq<seq<byte>>, i: nat, k: nat)
    requires i <= k <= |parts|
    ensures |PadJoin(out, parts, i)| <= |PadJoin(out, parts, k)|
    ensures PadJoin(out, parts, k)[..|PadJoin(out, parts, i)|] == PadJoin(out, parts, i)
  {
    if i < k {
      PadJoinPrefix(out, parts, i, k - 1);
      var small := PadJoin(out, parts, i);
      var mid := PadJoin(out, parts, k - 1);
      PaddedKeepsPrefix(mid, parts[k - 1], |small|);
    }
  }

  /** One more part: append it and pad. */
  lemma {:induction false} PadJoinNext(out: seq<byte>, parts: seq<seq<byte>>, k: nat)
    requires k < |parts|
    ensures PadJoin(out, parts, k + 1) == Padded(PadJoin(out, parts, k) + parts[k])
  {
  }

  /** Part i starts where the first i parts end. */
  lemma {:induction false} PadJoinPlaces(out: seq<byte>, parts: seq<seq<byte>>, i: nat, k: nat)
    requires i < k <= |parts|
    ensures |PadJoin(out, parts, i)| + |parts[i]| <= |PadJoin(out, parts, k)|
    ensures PadJoin(out, parts, k)[|PadJoin(out, parts, i)|..|PadJoin(out, parts, i)| + |parts[i]|] == parts[i]
  {
    var prev := PadJoin(out, parts, i);
    PadJoinPrefix(out, parts, i + 1, k);
    PaddedPlacesTail(prev, parts[i]);
    SliceOfPrefix(PadJoin(out, parts, k), PadJoin(out, parts, i + 1), |prev|, |prev| + |parts[i]|);
  }

  /** A slice inside a prefix of big is the same slice of that prefix. */
  lemma {:induction false} SliceOfPrefix(big: seq<byte>, small: seq<byte>, lo: nat, hi: nat)
    requires lo <= hi <= |small| <= |big| && big[..|small|] == small
    ensures big[lo..hi] == small[lo..hi]
  {
    forall j | lo <= j < hi ensures big[j] == small[j] {
      assert big[..|small|][j] == big[j];
    }
  }

  /** With parts of w bytes each after an aligned out, the first k parts
      take k times w rounded up to 16. */
  lemma {:induction false} PadJoinUniform(out: seq<byte>, parts: seq<seq<byte>>, w: int, k: nat)
    requires k <= |parts| && |out| % 16 == 0
    requires forall i :: 0 <= i < |parts| ==> |parts[i]| == w
    ensures |PadJoin(out, parts, k)| == |out| + k * AlignUp(w, 16)
  {
    if k > 0 {
      PadJoinUniform(out, parts, w, k - 1);
      var prev := PadJoin(out, parts, k - 1);
      var r := AlignUp(w, 16);
      assert |prev| % 16 == 0 by { SpanAligned(|out|, k - 1, r); }
      PaddedLength(prev + parts[k - 1]);
      AlignUpShift(|prev|, w);
      assert |out| + (k - 1) * r + r == |out| + k * r;
    }
  }

  lemma {:induction false} SpanAligned(base: int, n: nat, r: int)
    requires base % 16 == 0 && r % 16 == 0
    ensures (base + n * r) % 16 == 0
  {
    var q := r / 16;
    assert n * r == 16 * (n * q) by {
      assert r == 16 * q;
    }
    var t := n * q;
    assert base + n * r == 16 * (base / 16 + t);
  }

  /** With parts as long as the entries' sizes and offsets chained from the end
      of out, the first k parts end where entry k begins. */
  lemma {:induction false} PadJoinChained(out: seq<byte>, parts: seq<seq<byte>>, files: seq<Entry>, k: nat)
    requires k <= |parts| == |files| && Chained(files, |out|)
    requires forall i :: 0 <= i < |files| ==> |parts[i]| == files[i].size
    ensures k == 0 ==> |PadJoin(out, parts, k)| == |out|
    ensures k > 0 ==> |PadJoin(out, parts, k)| == AlignUp(files[k - 1].offset + files[k - 1].size, 16)
    ensures k < |files| ==> |PadJoin(out, parts, k)| == files[k].offset
  {
    if k > 0 {
      PadJoinChained(out, parts, files, k - 1);
      PaddedLength(PadJoin(out, parts, k - 1) + parts[k - 1]);
      if k < |files| {
        assert Follows(files, k);
      }
    }
  }

  predicate NamesFit(files: seq<Entry>, nameLength: int) {
    forall i :: 0 <= i < |files| ==> |files[i].name| <= nameLength
  }

  /** Every chunk written has exactly the entry's declared size: the target's
      replacement matches its new size and every other read returns in full. */
  predicate FullChunks(files: seq<Entry>, sources: seq<int>, targetId: int, payload: seq<byte>, archive: seq<byte>)
    requires SourcesValid(files, sources, targetId)
  {
    forall i :: 0 <= i < |files| ==> |Chunk(files[i], sources[i], targetId, payload, archive)| == files[i].size
  }

  /** The facts about a recalculated header that the image layout depends on. */
  predicate Laid(files: seq<Entry>, nameLength: int, startOffset: int, fileSize: int) {
    && |files| > 0
    && NamesFit(files, nameLength)
    && startOffset == HeaderSize + |files| * RecordSize(nameLength)
    && Chained(files, startOffset)
    && fileSize == LayoutEnd(files)
  }

  lemma {:induction false} RecalculatedIsLaid(before: seq<Entry>, files: seq<Entry>, nameLength: int, startOffset: int, fileSize: int)
    requires Recalculated(before, files, nameLength, startOffset, fileSize)
    ensures Laid(files, nameLength, startOffset, fileSize)
  {
    RecalculatedWidths(before, files, nameLength, startOffset, fileSize);
  }

  /** Parts of the lengths the table records have. */
  predicate RecordWidths(records: seq<seq<byte>>, nameLength: int) {
    forall i :: 0 <= i < |records| ==> |records[i]| == nameLength + 16
  }

  /** Parts as long as the entries' declared sizes. */
  predicate SizedLike(chunks: seq<seq<byte>>, files: seq<Entry>) {
    |chunks| == |files| && forall i :: 0 <= i < |files| ==> |chunks[i]| == files[i].size
  }

  lemma {:induction false} RecordsWidths(files: seq<Entry>, nameLength: int, startOffset: int)
    requires NamesFit(files, nameLength)
    ensures RecordWidths(Records(files, nameLength, startOffset), nameLength)
  {
    var records := Records(files, nameLength, startOffset);
    forall i | 0 <= i < |records| ensures |records[i]| == nameLength + 16 {
      assert records[i] == RecordImage(files[i], nameLength, startOffset);
    }
  }

  lemma {:induction false} ChunksSized(files: seq<Entry>, sources: seq<int>, targetId: int, payload: seq<byte>, archive: seq<byte>)
    requires SourcesValid(files, sources, targetId)
    requires FullChunks(files, sources, targetId, payload, archive)
    ensures SizedLike(Chunks(files, sources, targetId, payload, archive), files)
  {
  }

  /** The header and the table records end exactly at start_offset. */
  lemma {:induction false} TableEndsAtStart(header: seq<byte>, records: seq<seq<byte>>, files: seq<Entry>,
                                            nameLength: int, startOffset: int, fileSize: int)
    requires |header| == HeaderSize && Laid(files, nameLength, startOffset, fileSize)
    requires |records| == |files| && RecordWidths(records, nameLength)
    ensures |PadJoin(header, records, |files|)| == startOffset
  {
    PadJoinUniform(header, records, nameLength + 16, |files|);
  }

  /** Header, table and payloads: the image ends at the last payload rounded
      up to 16 and keeps the header in front. */
  lemma {:induction false} ImageFrameAfter(header: seq<byte>, records: seq<seq<byte>>, chunks: seq<seq<byte>>,
                                           files: seq<Entry>, nameLength: int, startOffset: int, fileSize: int)
    requires |header| == HeaderSize && Laid(files, nameLength, startOffset, fileSize)
    requires |records| == |files| && RecordWidths(records, nameLength) && SizedLike(chunks, files)
    ensures var img := PadJoin(PadJoin(header, records, |files|), chunks, |files|);
            |img| == fileSize && HeaderSize <= |img| && img[..HeaderSize] == header
  {
    var table := PadJoin(header, records, |files|);
    TableEndsAtStart(header, records, files, nameLength, startOffset, fileSize);
    PadJoinPrefix(header, records, 0, |files|);
    PadJoinChained(table, chunks, files, |files|);
    PadJoinPrefix(table, chunks, 0, |files|);
    var img := PadJoin(table, chunks, |files|);
    assert img[..HeaderSize] == img[..|table|][..HeaderSize];
  }

  /** The image is file_size bytes long and begins with the header. */
  lemma {:induction false} ImageFrame(files: seq<Entry>, nameLength: int, startOffset: int, fileSize: int,
                                      targetId: int, sources: seq<int>, payload: seq<byte>, archive: seq<byte>)
    requires Laid(files, nameLength, startOffset, fileSize)
    requires SourcesValid(files, sources, targetId)
    requires FullChunks(files, sources, targetId, payload, archive)
    ensures var img := Image(files, nameLength, startOffset, fileSize, targetId, sources, payload, archive);
            && |img| == fileSize && HeaderSize <= |img|
            && img[..HeaderSize] == HeaderImage(startOffset, fileSize, |files|, nameLength)
  {
    RecordsWidths(files, nameLength, startOffset);
    ChunksSized(files, sources, targetId, payload, archive);
    ImageFrameAfter(HeaderImage(startOffset, fileSize, |files|, nameLength), Records(files, nameLength, startOffset),
                    Chunks(files, sources, targetId, payload, archive), files, nameLength, startOffset, fileSize);
  }

  /** Record i follows the 32 header bytes, i record sizes further on. */
  lemma {:induction false} RecordAfter(header: seq<byte>, records: seq<seq<byte>>, chunks: seq<seq<byte>>,
                                       nameLength: int, i: nat, at: int)
    requires |header| == HeaderSize && i < |records| == |chunks| && RecordWidths(records, nameLength)
    requires at == HeaderSize + i * RecordSize(nameLength)
    ensures var img := PadJoin(PadJoin(header, records, |records|), chunks, |chunks|);
            0 <= at && at + nameLength + 16 <= |img| && img[at..at + nameLength + 16] == records[i]
  {
    var table := PadJoin(header, records, |records|);
    PadJoinUniform(header, records, nameLength + 16, i);
    PadJoinPlaces(header, records, i, |records|);
    PadJoinPrefix(table, chunks, 0, |chunks|);
    var img := PadJoin(table, chunks, |chunks|);
    SliceOfPrefix(img, table, at, at + nameLength + 16);
  }

  /** Record i of the image lies at 32 + i * RecordSize(name_length). */
  lemma {:induction false} RecordInImage(files: seq<Entry>, nameLength: int, startOffset: int, fileSize: int,
                                         targetId: int, sources: seq<int>, payload: seq<byte>, archive: seq<byte>, i: nat)
    requires NamesFit(files, nameLength) && i < |files|
    requires SourcesValid(files, sources, targetId)
    ensures var img := Image(files, nameLength, startOffset, fileSize, targetId, sources, payload, archive);
            var at := HeaderSize + i * RecordSize(nameLength);
            0 <= at && at + nameLength + 16 <= |img|
            && img[at..at + nameLength + 16] == RecordImage(files[i], nameLength, startOffset)
  {
    var records := Records(files, nameLength, startOffset);
    RecordsWidths(files, nameLength, startOffset);
    RecordAfter(HeaderImage(startOffset, fileSize, |files|, nameLength), records,
                Chunks(files, sources, targetId, payload, archive), nameLength, i, HeaderSize + i * RecordSize(nameLength));
  }

  /** The name the parser reads from a record written for e is e's name. */
  lemma {:induction false} RecordNameAt(s: seq<byte>, at: nat, e: Entry, nameLength: int, startOffset: int)
    requires RecordPackable(e, startOffset) && |e.name| <= nameLength && '\0' !in e.name
    requires at + nameLength + 16 <= |s| && s[at..at + nameLength + 16] == RecordImage(e, nameLength, startOffset)
    ensures StripNul(AsciiDecode(NameBytes(s, at, nameLength))) == e.name
  {
    var r := RecordImage(e, nameLength, startOffset);
    assert NameBytes(s, at, nameLength) == s[at..at + nameLength];
    assert s[at..at + nameLength] == s[at..at + nameLength + 16][..nameLength];
    RecordNameReadsBack(e, nameLength, startOffset);
  }

  /** The integers the parser reads from a record written for e are e's id,
      offset relative to start_offset and size. */
  lemma {:induction false} RecordIntsAt(s: seq<byte>, at: nat, e: Entry, nameLength: int, startOffset: int)
    requires RecordPackable(e, startOffset) && |e.name| <= nameLength
    requires at + nameLength + 16 <= |s| && s[at..at + nameLength + 16] == RecordImage(e, nameLength, startOffset)
    ensures I32At(s, at + nameLength) == e.id
    ensures I32At(s, at + nameLength + 4) == e.offset - startOffset
    ensures I32At(s, at + nameLength + 8) == e.size
  {
    var width := nameLength + 16;
    RecordReadsBack(e, nameLength, startOffset);
    I32AtWithin(s, at, width, nameLength);
    I32AtWithin(s, at, width, nameLength + 4);
    I32AtWithin(s, at, width, nameLength + 8);
  }

  /** Wherever an entry's record lies in a file, the parser reads it back as
      the entry, provided the entry packs, its name has no NUL and its offset
      is a multiple of 16. */
  lemma {:induction false} RecordReadsAsEntry(s: seq<byte>, at: nat, e: Entry, nameLength: int, startOffset: int)
    requires RecordPackable(e, startOffset) && |e.name| <= nameLength
    requires '\0' !in e.name && e.offset % 16 == 0
    requires at + nameLength + 16 <= |s| && s[at..at + nameLength + 16] == RecordImage(e, nameLength, startOffset)
    ensures RecordEntry(s, at, nameLength, startOffset) == e
  {
    RecordNameAt(s, at, e, nameLength, startOffset);
    RecordIntsAt(s, at, e, nameLength, startOffset);
    AlignUpAligned(e.offset, 16);
  }

  /** With a name field that is a multiple of 16, the parser reads record k
      of the rewritten archive back as entry k, provided the entry packs, its
      name has no NUL and its offset is a multiple of 16. */
  lemma {:induction false} WrittenRecordReads(files: seq<Entry>, nameLength: int, startOffset: int, fileSize: int,
                                              targetId: int, sources: seq<int>, payload: seq<byte>, archive: seq<byte>, k: nat)
    requires NamesFit(files, nameLength) && k < |files| && nameLength % 16 == 0
    requires SourcesValid(files, sources, targetId)
    requires RecordPackable(files[k], startOffset) && '\0' !in files[k].name && files[k].offset % 16 == 0
    ensures var img := Image(files, nameLength, startOffset, fileSize, targetId, sources, payload, archive);
            RecordEntry(img, RecordPos(k, nameLength), nameLength, startOffset) == files[k]
  {
    var img := Image(files, nameLength, startOffset, fileSize, targetId, sources, payload, archive);
    ReadWhereWritten(k, nameLength);
    RecordInImage(files, nameLength, startOffset, fileSize, targetId, sources, payload, archive, k);
    RecordReadsAsEntry(img, HeaderSize + k * RecordSize(nameLength), files[k], nameLength, startOffset);
  }

  /** Part i lies at entry i's offset when the offsets chain from the end of the table. */
  lemma {:induction false} PartsAtOffsets(table: seq<byte>, chunks: seq<seq<byte>>, files: seq<Entry>)
    requires Chained(files, |table|) && SizedLike(chunks, files)
    ensures var img := PadJoin(table, chunks, |files|);
            forall i :: 0 <= i < |files| ==>
              0 <= files[i].offset <= files[i].offset + files[i].size <= |img|
              && img[files[i].offset..files[i].offset + files[i].size] == chunks[i]
  {
    var img := PadJoin(table, chunks, |files|);
    forall i | 0 <= i < |files|
      ensures 0 <= files[i].offset <= files[i].offset + files[i].size <= |img|
              && img[files[i].offset..files[i].offset + files[i].size] == chunks[i]
    {
      PadJoinChained(table, chunks, files, i);
      PadJoinPlaces(table, chunks, i, |files|);
    }
  }

  /** Payload i of the image lies at entry i's offset. */
  lemma {:induction false} PayloadsInImage(files: seq<Entry>, nameLength: int, startOffset: int, fileSize: int,
                                           targetId: int, sources: seq<int>, payload: seq<byte>, archive: seq<byte>)
    requires Laid(files, nameLength, startOffset, fileSize)
    requires SourcesValid(files, sources, targetId)
    requires FullChunks(files, sources, targetId, payload, archive)
    ensures var img := Image(files, nameLength, startOffset, fileSize, targetId, sources, payload, archive);
            forall i :: 0 <= i < |files| ==>
              0 <= files[i].offset <= files[i].offset + files[i].size <= |img|
              && img[files[i].offset..files[i].offset + files[i].size]
                   == Chunk(files[i], sources[i], targetId, payload, archive)
  {
    var header := HeaderImage(startOffset, fileSize, |files|, nameLength);
    var records := Records(files, nameLength, startOffset);
    var chunks := Chunks(files, sources, targetId, payload, archive);
    RecordsWidths(files, nameLength, startOffset);
    ChunksSized(files, sources, targetId, payload, archive);
    TableEndsAtStart(header, records, files, nameLength, startOffset, fileSize);
    PartsAtOffsets(PadJoin(header, records, |files|), chunks, files);
  }

  // ---------------------------------------------------------------------
  // Which bytes are copied for the entries that are not replaced
  // ---------------------------------------------------------------------

  /** Every entry other than the target has its payload inside the archive. */
  predicate PayloadsInside(files: seq<Entry>, targetId: int, archive: seq<byte>) {
    forall i :: 0 <= i < |files| && files[i].id != targetId ==>
      0 <= files[i].offset && 0 <= files[i].size && files[i].offset + files[i].size <= |archive|
  }

  /** The original bytes of entry e in the archive. */
  function Payload(e: Entry, archive: seq<byte>): seq<byte>
    requires 0 <= e.offset && 0 <= e.size && e.offset + e.size <= |archive|
  {
    archive[e.offset..e.offset + e.size]
  }

  /**
   * Replacing the payload of targetId while copying every other entry from its
   * offset in the table as it was read: the rewritten archive holds the new
   * payload for the target, and the original bytes of every other entry, each
   * at its recomputed offset.
   */
  lemma {:induction false} ReplaceKeepsOtherPayloads(before: seq<Entry>, after: seq<Entry>, nameLength: int, startOffset: int,
                                  fileSize: int, targetId: int, payload: seq<byte>, archive: seq<byte>)
    requires Recalculated(WithSize(before, targetId, |payload|), after, nameLength, startOffset, fileSize)
    requires PayloadsInside(before, targetId, archive)
    ensures SourcesValid(after, Offsets(before), targetId)
    ensures var img := Image(after, nameLength, startOffset, fileSize, targetId, Offsets(before), payload, archive);
            && |img| == fileSize
            && forall i :: 0 <= i < |after| ==>
                 && 0 <= after[i].offset <= after[i].offset + after[i].size <= |img|
                 && (after[i].id == targetId ==> img[after[i].offset..after[i].offset + after[i].size] == payload)
                 && (after[i].id != targetId ==>
                       img[after[i].offset..after[i].offset + after[i].size] == Payload(before[i], archive))
  {
    var sized := WithSize(before, targetId, |payload|);
    var sources := Offsets(before);
    forall i | 0 <= i < |after| ensures after[i].id == before[i].id && after[i].name == before[i].name {
      assert after[i] == sized[i].(offset := after[i].offset);
    }
    assert SourcesValid(after, sources, targetId);
    forall i | 0 <= i < |after|
      ensures |Chunk(after[i], sources[i], targetId, payload, archive)| == after[i].size
      ensures after[i].id == targetId ==> Chunk(after[i], sources[i], targetId, payload, archive) == payload
      ensures after[i].id != targetId ==> Chunk(after[i], sources[i], targetId, payload, archive) == Payload(before[i], archive)
    {
      assert after[i] == sized[i].(offset := after[i].offset);
      if after[i].id == targetId {
        assert payload + Zeros(0) == payload;
      }
    }
    RecalculatedIsLaid(sized, after, nameLength, startOffset, fileSize);
    ImageFrame(after, nameLength, startOffset, fileSize, targetId, sources, payload, archive);
    PayloadsInImage(after, nameLength, startOffset, fileSize, targetId, sources, payload, archive);
  }

  /**
   * The rewrite as `replace` performs it seeks each entry at its offset after
   * `recalculate_values`. With entries "a" (id 1, 32 bytes at 96) and "b" (id
   * 2, 16 bytes at 128) in a 144-byte archive, replacing "a" by 16 bytes moves
   * "b" to 112, and the 16 bytes written for "b" are archive[112..128], the
   * tail of the old "a", rather than "b"'s own bytes archive[128..144].
   */
  lemma {:induction false} ReplaceAsWrittenCopiesWrongBytes(before: seq<Entry>, after: seq<Entry>,
                                                             nameLength: int, startOffset: int, fileSize: int,
                                                             archive: seq<byte>, payload: seq<byte>)
    requires before == [Entry("a", 1, 96, 32), Entry("b", 2, 128, 16)]
    requires after == [Entry("a", 1, 96, 16), Entry("b", 2, 112, 16)]
    requires nameLength == 4 && startOffset == 96 && fileSize == 128
    requires |archive| == 144 && |payload| == 16 && archive[112] != archive[128]
    ensures Recalculated(WithSize(before, 1, |payload|), after, nameLength, startOffset, fileSize)
    ensures PayloadsInside(before, 1, archive)
    ensures SourcesValid(after, Offsets(after), 1)
    ensures var img := Image(after, nameLength, startOffset, fileSize, 1, Offsets(after), payload, archive);
            |img| == fileSize && img[after[1].offset..fileSize] == archive[112..128] != Payload(before[1], archive)
  {
    assert PayloadsInside(before, 1, archive) by {
      assert before[0].id == 1 && before[1].offset + before[1].size == 144;
    }
    assert archive[112..128] != Payload(before[1], archive) by {
      assert archive[112..128][0] != archive[128..144][0];
    }
    ExampleRecalculated(before, after, nameLength, startOffset, fileSize);
    var sources := Offsets(after);
    assert sources[0] == 96 && sources[1] == 112;
    assert FullChunks(after, sources, 1, payload, archive) by {
      assert payload + Zeros(0) == payload;
    }
    AsWrittenReadsNewOffsets(after, nameLength, startOffset, fileSize, 1, payload, archive, 1);
  }

  /** Seeking each copied entry at its offset after the recalculation puts
      there the archive's bytes at that new offset. */
  lemma {:induction false} AsWrittenReadsNewOffsets(files: seq<Entry>, nameLength: int, startOffset: int, fileSize: int,
                                                    targetId: int, payload: seq<byte>, archive: seq<byte>, i: nat)
    requires Laid(files, nameLength, startOffset, fileSize)
    requires SourcesValid(files, Offsets(files), targetId)
    requires FullChunks(files, Offsets(files), targetId, payload, archive)
    requires i < |files| && files[i].id != targetId && files[i].offset + files[i].size <= |archive|
    ensures var img := Image(files, nameLength, startOffset, fileSize, targetId, Offsets(files), payload, archive);
            && |img| == fileSize
            && 0 <= files[i].offset <= files[i].offset + files[i].size <= |img|
            && img[files[i].offset..files[i].offset + files[i].size] == archive[files[i].offset..files[i].offset + files[i].size]
  {
    var sources := Offsets(files);
    ImageFrame(files, nameLength, startOffset, fileSize, targetId, sources, payload, archive);
    PayloadsInImage(files, nameLength, startOffset, fileSize, targetId, sources, payload, archive);
    assert sources[i] == files[i].offset;
  }

  /** The layout `recalculate_values` gives the example once "a" shrinks to 16 bytes. */
  lemma {:induction false} ExampleRecalculated(before: seq<Entry>, after: seq<Entry>,
                                               nameLength: int, startOffset: int, fileSize: int)
    requires before == [Entry("a", 1, 96, 32), Entry("b", 2, 128, 16)]
    requires after == [Entry("a", 1, 96, 16), Entry("b", 2, 112, 16)]
    requires nameLength == 4 && startOffset == 96 && fileSize == 128
    ensures Recalculated(WithSize(before, 1, 16), after, nameLength, startOffset, fileSize)
    ensures Laid(after, nameLength, startOffset, fileSize)
  {
    var sized := WithSize(before, 1, 16);
    assert sized == [Entry("a", 1, 96, 16), Entry("b", 2, 128, 16)];
    assert MaxNameLength(sized) == 1;
    assert Follows(after, 1);
    assert IsLayout(sized, after, startOffset);
    RecalculatedIsLaid(sized, after, nameLength, startOffset, fileSize);
  }

  // ---------------------------------------------------------------------
  // Extraction (FileHeader.extract_all_files)
  // ---------------------------------------------------------------------

  /**
   * The first k entries can be copied out: each offset is a valid seek
   * position, and a non-empty entry lies inside the archive (otherwise the
   * copy loop reads nothing forever).
   */
  predicate Extractable(files: seq<Entry>, archive: seq<byte>, k: nat) {
    forall i :: 0 <= i < k && i < |files| ==>
      0 <= files[i].offset && (files[i].size > 0 ==> files[i].offset + files[i].size <= |archive|)
  }

  /**
   * The index of the first entry at or after `from` whose extraction raises;
   * |files| when there is none. `open(path, "wb")` raises when its output
   * path is not in `openable` (a directory, as for the names "", "." and
   * "..", or a path in a missing subdirectory), and `seek` raises when its
   * offset is negative.
   */
  function FirstFailure(files: seq<Entry>, dirPath: string, openable: set<string>, from: nat): (r: nat)
    requires from <= |files|
    ensures from <= r <= |files|
    ensures forall j :: from <= j < r ==> OutputPath(dirPath, files[j].name) in openable && files[j].offset >= 0
    ensures r < |files| ==> OutputPath(dirPath, files[r].name) !in openable || files[r].offset < 0
    decreases |files| - from
  {
    if from == |files| || OutputPath(dirPath, files[from].name) !in openable || files[from].offset < 0 then from
    else FirstFailure(files, dirPath, openable, from + 1)
  }

  /** The bytes extracted for e: `file_size` bytes from its offset, none if the size is not positive. */
  function Content(e: Entry, archive: seq<byte>): (c: seq<byte>)
    requires 0 <= e.offset && (e.size > 0 ==> e.offset + e.size <= |archive|)
    ensures |c| == Max(e.size, 0)
  {
    if e.size > 0 then archive[e.offset..e.offset + e.size] else []
  }

  function OutputPath(dirPath: string, name: string): string {
    dirPath + "/" + name
  }

  /** The directory after extracting the first k entries: each writes its own
      file, so a later entry with the same name overwrites an earlier one. */
  function Extracted(dir: map<string, seq<byte>>, dirPath: string, files: seq<Entry>, archive: seq<byte>, k: nat): map<string, seq<byte>>
    requires k <= |files| && Extractable(files, archive, k)
  {
    if k == 0 then dir
    else Extracted(dir, dirPath, files, archive, k - 1)[OutputPath(dirPath, files[k - 1].name) := Content(files[k - 1], archive)]
  }

  /** Different names give different output paths. */
  lemma {:induction false} OutputPathInjective(dirPath: string, a: string, b: string)
    requires OutputPath(dirPath, a) == OutputPath(dirPath, b)
    ensures a == b
  {
    assert a == OutputPath(dirPath, a)[|dirPath| + 1..];
    assert b == OutputPath(dirPath, b)[|dirPath| + 1..];
  }

  /** After extraction the file of an entry that is the last with its name
      holds exactly that entry's bytes. */
  lemma {:induction false} ExtractedLast(dir: map<string, seq<byte>>, dirPath: string, files: seq<Entry>,
                                         archive: seq<byte>, k: nat, i: nat)
    requires k <= |files| && Extractable(files, archive, k) && i < k
    requires forall j :: i < j < k ==> files[j].name != files[i].name
    ensures OutputPath(dirPath, files[i].name) in Extracted(dir, dirPath, files, archive, k)
    ensures Extracted(dir, dirPath, files, archive, k)[OutputPath(dirPath, files[i].name)] == Content(files[i], archive)
  {
    var path := OutputPath(dirPath, files[i].name);
    var last := OutputPath(dirPath, files[k - 1].name);
    var prev := Extracted(dir, dirPath, files, archive, k - 1);
    assert Extracted(dir, dirPath, files, archive, k) == prev[last := Content(files[k - 1], archive)];
    if i < k - 1 {
      ExtractedLast(dir, dirPath, files, archive, k - 1, i);
      if last == path {
        OutputPathInjective(dirPath, files[k - 1].name, files[i].name);
        assert false;
      }
    }
  }

  /** Extraction leaves every path that no entry names as it was. */
  lemma {:induction false} ExtractedOthers(dir: map<string, seq<byte>>, dirPath: string, files: seq<Entry>,
                                           archive: seq<byte>, k: nat, p: string)
    requires k <= |files| && Extractable(files, archive, k)
    requires forall i :: 0 <= i < k ==> p != OutputPath(dirPath, files[i].name)
    ensures p in Extracted(dir, dirPath, files, archive, k) <==> p in dir
    ensures p in dir ==> Extracted(dir, dirPath, files, archive, k)[p] == dir[p]
  {
    if k > 0 {
      ExtractedOthers(dir, dirPath, files, archive, k - 1, p);
    }
  }
}
