/**
 * config/utils/xwb.py: `XSBEditor`, which patches an XACT sound bank (.xsb)
 * in place (its 16-bit checksum and two control bytes), and the lookup by
 * which `XWBCreator.replace_xwb` picks the archive entry a new wave bank
 * replaces. The .xsb file is the field `contents` of XsbEditor; whether its
 * path exists is the field `present`.
 */
module Xwb {
  import opened Binary
  import opened Text
  import opened PacLayout
  import opened PacFile

  // ---------------------------------------------------------------------
  // The checksum (XSBEditor.calculate_checksum)
  // ---------------------------------------------------------------------

  /**
   * `checksum_key`: the lookup table of the PPP 16-bit frame check sequence,
   * `fcstab` in Appendix C.2 of RFC 1662. Its element type makes every entry
   * a 16-bit value.
   */
  const FcsTable: seq<bv16> := [
      0, 4489, 8978, 12955, 17956, 22445, 25910, 29887, 35912, 40385,
      44890, 48851, 51820, 56293, 59774, 63735, 4225, 264, 13203, 8730,
      22181, 18220, 30135, 25662, 40137, 36160, 49115, 44626, 56045, 52068,
      63999, 59510, 8450, 12427, 528, 5017, 26406, 30383, 17460, 21949,
      44362, 48323, 36440, 40913, 60270, 64231, 51324, 55797, 12675, 8202,
      4753, 792, 30631, 26158, 21685, 17724, 48587, 44098, 40665, 36688,
      64495, 60006, 55549, 51572, 16900, 21389, 24854, 28831, 1056, 5545,
      10034, 14011, 52812, 57285, 60766, 64727, 34920, 39393, 43898, 47859,
      21125, 17164, 29079, 24606, 5281, 1320, 14259, 9786, 57037, 53060,
      64991, 60502, 39145, 35168, 48123, 43634, 25350, 29327, 16404, 20893,
      9506, 13483, 1584, 6073, 61262, 65223, 52316, 56789, 43370, 47331,
      35448, 39921, 29575, 25102, 20629, 16668, 13731, 9258, 5809, 1848,
      65487, 60998, 56541, 52564, 47595, 43106, 39673, 35696, 33800, 38273,
      42778, 46739, 49708, 54181, 57662, 61623, 2112, 6601, 11090, 15067,
      20068, 24557, 28022, 31999, 38025, 34048, 47003, 42514, 53933, 49956,
      61887, 57398, 6337, 2376, 15315, 10842, 24293, 20332, 32247, 27774,
      42250, 46211, 34328, 38801, 58158, 62119, 49212, 53685, 10562, 14539,
      2640, 7129, 28518, 32495, 19572, 24061, 46475, 41986, 38553, 34576,
      62383, 57894, 53437, 49460, 14787, 10314, 6865, 2904, 32743, 28270,
      23797, 19836, 50700, 55173, 58654, 62615, 32808, 37281, 41786, 45747,
      19012, 23501, 26966, 30943, 3168, 7657, 12146, 16123, 54925, 50948,
      62879, 58390, 37033, 33056, 46011, 41522, 23237, 19276, 31191, 26718,
      7393, 3432, 16371, 11898, 59150, 63111, 50204, 54677, 41258, 45219,
      33336, 37809, 27462, 31439, 18516, 23005, 11618, 15595, 3696, 8185,
      63375, 58886, 54429, 50452, 45483, 40994, 37561, 33584, 31687, 27214,
      22741, 18780, 15843, 11370, 7921, 3960
  ]

  /** The register's initial value, all sixteen bits set. */
  const FcsInit: bv16 := 0xFFFF
  /** The summed region starts at `seek(18)` and runs to the end of the file. */
  const SummedFrom: nat := 18
  /** Where `struct.pack("<H", num)` is written. */
  const ChecksumAt: nat := 8
  const SoundAt: nat := 0xCD
  const TrackAt: nat := 0xDB

  lemma {:induction false} FcsTableSize()
    ensures |FcsTable| == 256
  {
  }

  /** One round of the checksum loop: the table entry indexed by the low
      eight bits of the byte xor the register, xor the register shifted right
      by eight. */
  function FcsStep(reg: bv16, b: byte): bv16 {
    FcsTableSize();
    FcsTable[((b as bv16 ^ reg) & 0xFF) as int] ^ (reg >> 8)
  }

  /** The register after folding every byte of data into the initial value. */
  function Fcs(data: seq<byte>): (r: bv16) {
    if |data| == 0 then FcsInit else FcsStep(Fcs(data[..|data| - 1]), data[|data| - 1])
  }

  /** The bytes `seek(18); read()` returns: everything from offset 18 on, none for a shorter file. */
  function SummedRegion(file: seq<byte>): (r: seq<byte>)
    ensures |file| >= SummedFrom ==> r == file[SummedFrom..]
    ensures |file| < SummedFrom ==> r == []
  {
    ReadAt(file, SummedFrom, -1)
  }

  /** `~num & 0xFFFF` after the loop: the complemented register. */
  function Checksum(file: seq<byte>): (r: bv16) {
    !Fcs(SummedRegion(file))
  }

  /** `struct.pack("<H", v)`: low byte first. */
  function Le16(v: bv16): (b: seq<byte>)
    ensures |b| == 2
  {
    [v as int % 256, v as int / 256]
  }

  /** The value two little-endian bytes hold, as `unpack("<H", ...)` reads it. */
  function U16(lo: byte, hi: byte): int {
    lo + 256 * hi
  }

  /** The file after `seek(8); write(pack("<H", checksum))`. */
  function WithChecksum(file: seq<byte>): (r: seq<byte>) {
    WriteAt(file, ChecksumAt, Le16(Checksum(file)))
  }

  /** The checksum only depends on the bytes from offset 18 on. */
  lemma {:induction false} ChecksumOfRegion(f: seq<byte>, g: seq<byte>)
    requires SummedRegion(f) == SummedRegion(g)
    ensures Checksum(f) == Checksum(g)
  {
  }

  /** Two bytes written by Le16 read back as the value. */
  lemma {:induction false} Le16RoundTrip(v: bv16)
    ensures U16(Le16(v)[0], Le16(v)[1]) == v as int
  {
    var x := v as int;
    assert Le16(v)[0] == x % 256 && Le16(v)[1] == x / 256;
    assert x % 256 + 256 * (x / 256) == x;
  }

  /**
   * Storing the checksum writes its low byte at 8 and its high byte at 9 and
   * changes nothing else; a file shorter than 10 bytes grows to 10, a gap
   * before offset 8 filled with zeros.
   */
  lemma {:induction false} ChecksumWritesBytes8And9(file: seq<byte>)
    ensures var r := WithChecksum(file);
      && |r| == (if |file| < 10 then 10 else |file|)
      && U16(r[8], r[9]) == Checksum(file) as int
      && forall i :: 0 <= i < |r| && i != 8 && i != 9 ==> r[i] == if i < |file| then file[i] else 0
  {
    Le16RoundTrip(Checksum(file));
  }

  /** Two bytes written at offset 8 end before offset 18, where the summed
      region starts, and leave that region as it was. */
  lemma {:induction false} WriteKeepsRegion(file: seq<byte>, bytes: seq<byte>)
    requires |bytes| == 2
    ensures SummedRegion(WriteAt(file, ChecksumAt, bytes)) == SummedRegion(file)
  {
    var r := WriteAt(file, ChecksumAt, bytes);
    if |file| >= SummedFrom {
      assert |r| == |file|;
      forall i | 0 <= i < |file| - SummedFrom
        ensures SummedRegion(r)[i] == SummedRegion(file)[i]
      {
        assert r[SummedFrom + i] == file[SummedFrom + i];
      }
    } else {
      assert |r| < SummedFrom;
    }
  }

  /** Bytes 8 and 9 lie outside the summed region, so storing the checksum
      leaves the checksum as it was. */
  lemma {:induction false} StoringKeepsChecksum(file: seq<byte>)
    ensures Checksum(WithChecksum(file)) == Checksum(file)
  {
    WriteKeepsRegion(file, Le16(Checksum(file)));
    ChecksumOfRegion(WithChecksum(file), file);
  }

  /** Recomputing the checksum of a file whose checksum is stored changes nothing. */
  lemma {:induction false} ChecksumIdempotent(file: seq<byte>)
    ensures WithChecksum(WithChecksum(file)) == WithChecksum(file)
  {
    var r := WithChecksum(file);
    StoringKeepsChecksum(file);
    WriteAtSame(r, ChecksumAt, Le16(Checksum(r)));
  }

  /** The path check of calculate_checksum: the file exists and its
      lower-cased path ends in ".xsb". */
  predicate XsbPath(path: string, present: bool) {
    present && EndsWith(Lower(path), ".xsb")
  }

  /** `__write_byte_at_offset`: `seek(offset); write(pack("<B", b))`. */
  function WithByte(file: seq<byte>, offset: nat, b: byte): seq<byte> {
    WriteAt(file, offset, [b])
  }

  /** Writing one byte sets exactly that byte; a file too short for it grows,
      zero-filled up to it. */
  lemma {:induction false} WithByteSetsOnlyIt(file: seq<byte>, offset: nat, b: byte)
    ensures var r := WithByte(file, offset, b);
      && |r| == (if offset < |file| then |file| else offset + 1)
      && r[offset] == b
      && forall i :: 0 <= i < |r| && i != offset ==> r[i] == if i < |file| then file[i] else 0
  {
    var r := WithByte(file, offset, b);
    assert r[offset..offset + 1] == [b];
    assert r[offset] == r[offset..offset + 1][0];
  }

  /** `XSBEditor(xsb_path)` with the file system it sees: whether the path
      exists and, if so, the file's bytes. */
  class XsbEditor {
    var path: string
    var present: bool
    var contents: seq<byte>

    constructor (path: string, present: bool, contents: seq<byte>)
      ensures this.path == path && this.present == present && this.contents == contents
    {
      this.path := path;
      this.present := present;
      this.contents := contents;
    }

    /**
     * `calculate_checksum()`: refuses (XSBEditorError) a missing path or one
     * not ending in ".xsb" before opening anything; otherwise folds the bytes
     * from offset 18 into the register and stores the complement at 8.
     */
    method CalculateChecksum() returns (ok: bool)
      modifies this`contents
      ensures ok <==> XsbPath(path, present)
      ensures ok ==> contents == WithChecksum(old(contents))
      ensures !ok ==> contents == old(contents)
    {
      if !present || !EndsWith(Lower(path), ".xsb") {
        return false;
      }
      var num := FcsInit;
      var data := ReadAt(contents, SummedFrom, -1);
      for i := 0 to |data|
        invariant num == Fcs(data[..i])
      {
        assert data[..i + 1][..i] == data[..i];
        num := FcsStep(num, data[i]);
      }
      assert data[..|data|] == data;
      num := !num;
      contents := WriteAt(contents, ChecksumAt, Le16(num));
      return true;
    }

    /** `__write_byte_at_offset(new_byte, offset)`; opening a missing file fails. */
    method WriteByteAtOffset(newByte: byte, offset: nat) returns (ok: bool)
      modifies this`contents
      ensures ok <==> present
      ensures ok ==> contents == WithByte(old(contents), offset, newByte)
      ensures !ok ==> contents == old(contents)
    {
      if !present {
        return false;
      }
      contents := WriteAt(contents, offset, [newByte]);
      return true;
    }

    /** `write_sound(new_byte)`: the byte at 0xCD. */
    method WriteSound(newByte: byte) returns (ok: bool)
      modifies this`contents
      ensures ok <==> present
      ensures ok ==> contents == WithByte(old(contents), SoundAt, newByte)
      ensures !ok ==> contents == old(contents)
    {
      ok := WriteByteAtOffset(newByte, SoundAt);
    }

    /** `write_track(new_byte)`: the byte at 0xDB. */
    method WriteTrack(newByte: byte) returns (ok: bool)
      modifies this`contents
      ensures ok <==> present
      ensures ok ==> contents == WithByte(old(contents), TrackAt, newByte)
      ensures !ok ==> contents == old(contents)
    {
      ok := WriteByteAtOffset(newByte, TrackAt);
    }
  }

  // ---------------------------------------------------------------------
  // Choosing the entry to replace (XWBCreator.replace_xwb)
  // ---------------------------------------------------------------------

  /** `(xwb_name + ".xwb").lower()`, the name the scan compares with. */
  function XwbKey(xwbName: string): string {
    Lower(xwbName + ".xwb")
  }

  /** The two rules of the scan: the lower-cased entry name equals the key,
      or occurs in it and does not contain ".xsb" (the themes of versus
      battles). */
  predicate Matches(e: Entry, key: string) {
    var name := Lower(e.name);
    name == key || (Contains(key, name) && !Contains(name, ".xsb"))
  }

  /** The index of the last of the first k entries that matches. */
  function LastMatch(files: seq<Entry>, key: string, k: nat): (r: Option<nat>)
    requires k <= |files|
    ensures r.Some? ==> r.value < k && Matches(files[r.value], key)
    ensures r.Some? ==> forall j :: r.value < j < k ==> !Matches(files[j], key)
    ensures r.None? <==> forall j :: 0 <= j < k ==> !Matches(files[j], key)
  {
    if k == 0 then None
    else if Matches(files[k - 1], key) then Some(k - 1)
    else LastMatch(files, key, k - 1)
  }

  /** The loop over `header.files` that reassigns `to_replace` on every match. */
  method FindEntryToReplace(files: seq<Entry>, xwbName: string) returns (toReplace: Option<Entry>)
    ensures toReplace.None? <==> LastMatch(files, XwbKey(xwbName), |files|).None?
    ensures toReplace.Some? ==> toReplace.value == files[LastMatch(files, XwbKey(xwbName), |files|).value]
  {
    var key := XwbKey(xwbName);
    toReplace := None;
    for k := 0 to |files|
      invariant toReplace.None? <==> LastMatch(files, key, k).None?
      invariant toReplace.Some? ==> toReplace.value == files[LastMatch(files, key, k).value]
    {
      var name := Lower(files[k].name);
      if name == key {
        toReplace := Some(files[k]);
      } else if Contains(key, name) && !Contains(name, ".xsb") {
        toReplace := Some(files[k]);
      }
    }
  }

  /**
   * How `replace_xwb` ends: the rewritten archive with its new table; the
   * parse error that made opening the archive raise; no matching entry
   * (XWBCreatorError, raised before anything is written); or a rewrite that
   * raised while writing, after the table was recalculated.
   */
  datatype XwbOutcome =
    | Replaced(table: Table, archive: seq<byte>)
    | Unreadable(error: PacError)
    | NotFound
    | WriteFailed(table: Table)

  /** The archive opened and the entry to replace found, or the outcome that
      ends `replace_xwb` before anything is written. */
  datatype Located =
    | Found(header: FileHeader, target: Entry)
    | Stopped(outcome: XwbOutcome)

  /** Opening the archive and scanning its entries, the part both rewrites share. */
  method Locate(pac: seq<byte>, xwbName: string) returns (r: Located)
    ensures r.Stopped? ==> r.outcome.Unreadable? || r.outcome.NotFound?
    ensures r.Stopped? && r.outcome.Unreadable? <==> Parse(pac).Err?
    ensures r.Stopped? && r.outcome.Unreadable? ==> r.outcome.error == Parse(pac).error
    ensures r.Stopped? && r.outcome.NotFound? <==>
              Parse(pac).Ok? && LastMatch(Parse(pac).value.files, XwbKey(xwbName), |Parse(pac).value.files|).None?
    ensures r.Found? ==>
      && Parse(pac).Ok?
      && fresh(r.header) && r.header.archive == pac && r.header.AsTable() == Parse(pac).value
      && var files := Parse(pac).value.files;
         var i := LastMatch(files, XwbKey(xwbName), |files|);
         i.Some? && r.target == files[i.value]
  {
    var parsed := FileHeader.Open(pac);
    if parsed.Err? {
      return Stopped(Unreadable(parsed.error));
    }
    var header := parsed.value;
    var toReplace := FindEntryToReplace(header.files, xwbName);
    if toReplace.None? {
      return Stopped(NotFound);
    }
    return Found(header, toReplace.value);
  }

  /**
   * `replace_xwb`: opens the archive, picks the entry with the scan above
   * and replaces its payload with the new wave bank through `replace` as it
   * is written, which copies every other entry from its recalculated offset.
   * The rewrite succeeds exactly when the recalculated table is writable.
   */
  method ReplaceXwb(pac: seq<byte>, xwbName: string, newXwb: seq<byte>) returns (r: XwbOutcome)
    ensures Parse(pac).Err? <==> r.Unreadable?
    ensures r.Unreadable? ==> r.error == Parse(pac).error
    ensures r.NotFound? <==> Parse(pac).Ok? && LastMatch(Parse(pac).value.files, XwbKey(xwbName), |Parse(pac).value.files|).None?
    ensures r.Replaced? || r.WriteFailed? ==>
      var files := Parse(pac).value.files;
      var i := LastMatch(files, XwbKey(xwbName), |files|);
      && i.Some?
      && Recalculated(WithSize(files, files[i.value].id, |newXwb|), r.table.files,
                      r.table.nameLength, r.table.startOffset, r.table.fileSize)
      && (r.Replaced? <==> Writable(r.table.files, r.table.nameLength, r.table.startOffset, r.table.fileSize,
                                    files[i.value].id, Offsets(r.table.files)))
    ensures r.Replaced? ==>
      var files := Parse(pac).value.files;
      var i := LastMatch(files, XwbKey(xwbName), |files|);
      r.archive == Image(r.table.files, r.table.nameLength, r.table.startOffset, r.table.fileSize,
                         files[i.value].id, Offsets(r.table.files), newXwb, pac)
  {
    var located := Locate(pac, xwbName);
    if located.Stopped? {
      return located.outcome;
    }
    var header := located.header;
    var ok := header.Replace(located.target.id, newXwb);
    if !ok {
      return WriteFailed(header.AsTable());
    }
    return Replaced(header.AsTable(), header.archive);
  }

  /**
   * `replace_xwb` with `replace` corrected to copy every other entry from
   * the offset it had when the table was read.
   */
  method ReplaceXwbKeepingOffsets(pac: seq<byte>, xwbName: string, newXwb: seq<byte>) returns (r: XwbOutcome)
    ensures Parse(pac).Err? <==> r.Unreadable?
    ensures r.Unreadable? ==> r.error == Parse(pac).error
    ensures r.NotFound? <==> Parse(pac).Ok? && LastMatch(Parse(pac).value.files, XwbKey(xwbName), |Parse(pac).value.files|).None?
    ensures r.Replaced? || r.WriteFailed? ==>
      var files := Parse(pac).value.files;
      var i := LastMatch(files, XwbKey(xwbName), |files|);
      && i.Some?
      && Recalculated(WithSize(files, files[i.value].id, |newXwb|), r.table.files,
                      r.table.nameLength, r.table.startOffset, r.table.fileSize)
      && (r.Replaced? <==> Writable(r.table.files, r.table.nameLength, r.table.startOffset, r.table.fileSize,
                                    files[i.value].id, Offsets(files)))
    ensures r.Replaced? ==>
      var files := Parse(pac).value.files;
      var i := LastMatch(files, XwbKey(xwbName), |files|);
      r.archive == Image(r.table.files, r.table.nameLength, r.table.startOffset, r.table.fileSize,
                         files[i.value].id, Offsets(files), newXwb, pac)
  {
    var located := Locate(pac, xwbName);
    if located.Stopped? {
      return located.outcome;
    }
    var header := located.header;
    var ok := header.ReplaceKeepingOffsets(located.target.id, newXwb);
    if !ok {
      return WriteFailed(header.AsTable());
    }
    return Replaced(header.AsTable(), header.archive);
  }
}
