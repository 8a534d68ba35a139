/**
 * `FileHeader` of config/utils/pacfile.py as a class: the fields the
 * constructor reads from an FPAC archive, and the operations that recompute
 * the layout, rewrite the archive with one payload replaced, and extract every
 * entry. The archive file is the field `archive`; rewriting it replaces its
 * contents wholesale, as writing `temp.tmp` and renaming it over the archive
 * does. Each method is proved against the functions of module PacLayout.
 */
module PacFile {
  import opened Binary
  import opened Text
  import opened PacLayout

  /** `struct.unpack("<i", read(4))[0]` at position at: a short read makes
      `struct` raise, which is None. */
  method ReadI32(s: seq<byte>, at: nat) returns (r: Option<int>)
    ensures r.None? <==> at + 4 > |s|
    ensures r.Some? ==> r.value == I32At(s, at)
  {
    var bytes := ReadAt(s, at, 4);
    if |bytes| < 4 {
      return None;
    }
    FieldRead(s, at, bytes);
    return Some(I32At(bytes, 0));
  }

  /**
   * Reads one table record at pos: the name (NULs removed), then id, offset
   * and size, each an `unpack("<i", read(4))`; the offset is moved past
   * start_offset and rounded up to 16.
   */
  method ReadRecord(s: seq<byte>, pos: nat, nameLength: int, startOffset: int) returns (r: Result<Entry>)
    ensures r.Err? <==> RecordFault(s, pos, nameLength).Some?
    ensures r.Err? ==> r.error == RecordFault(s, pos, nameLength).value
    ensures r.Ok? ==> r.value == RecordEntry(s, pos, nameLength, startOffset)
  {
    // read(name_length) raises for a count below -1 and reads to the end of
    // the file for -1
    if nameLength < -1 {
      return Err(BadReadLength);
    }
    var nameBytes := ReadAt(s, pos, nameLength);
    ReadName(s, pos, nameLength);
    if !AllAscii(nameBytes) {
      return Err(NotAscii);
    }
    var cur := pos + |nameBytes|;
    var id := ReadI32(s, cur);
    if id.None? {
      ShortField(s, pos, nameLength, nameBytes, 0);
      return Err(Truncated);
    }
    var offset := ReadI32(s, cur + 4);
    if offset.None? {
      ShortField(s, pos, nameLength, nameBytes, 4);
      return Err(Truncated);
    }
    var size := ReadI32(s, cur + 8);
    if size.None? {
      ShortField(s, pos, nameLength, nameBytes, 8);
      return Err(Truncated);
    }
    NameWhole(s, pos, nameLength, nameBytes);
    FullRecord(s, pos, nameLength, startOffset, nameBytes, id.value, offset.value, size.value);
    var name := StripNul(AsciiDecode(nameBytes));
    return Ok(Entry(name, id.value, AlignUp(offset.value + startOffset, 16), size.value));
  }

  /**
   * The constructor's loop over `count` records from byte 32: read a record,
   * then skip `4 - name_length % 4` bytes.
   */
  method ReadTable(s: seq<byte>, count: int, nameLength: int, startOffset: int) returns (r: Result<seq<Entry>>)
    ensures r.Err? <==> FirstFault(s, 0, count, nameLength).Some?
    ensures r.Err? ==> r.error == FirstFault(s, 0, count, nameLength).value
    ensures r.Ok? ==> r.value == RecordEntries(s, count, nameLength, startOffset)
  {
    var files: seq<Entry> := [];
    var pos: nat := HeaderSize;
    var k: nat := 0;
    while k < count
      invariant k <= Max(count, 0)
      invariant pos == RecordPos(k, nameLength)
      invariant FirstFault(s, 0, count, nameLength) == FirstFault(s, k, count, nameLength)
      invariant files == Entries(s, k, nameLength, startOffset)
      decreases count - k
    {
      var entry := ReadRecord(s, pos, nameLength, startOffset);
      if entry.Err? {
        ReadFails(s, count, nameLength, k);
        return Err(entry.error);
      }
      ReadStep(s, count, nameLength, startOffset, k, files, entry.value);
      files := files + [entry.value];
      pos := pos + nameLength + 12 + (4 - nameLength % 4);
      k := k + 1;
    }
    ReadDone(s, count, nameLength, startOffset, k);
    return Ok(files);
  }

  /** Zero bytes written one at a time after out until its length is a multiple of 16. */
  method PadTo16(out: seq<byte>) returns (r: seq<byte>)
    ensures r == Padded(out)
  {
    r := out;
    while |r| % 16 != 0
      invariant |out| <= |r| <= AlignUp(|out|, 16)
      invariant r == out + Zeros(|r| - |out|)
      decreases AlignUp(|out|, 16) - |r|
    {
      r := r + [0];
    }
    AlignUpLeast(|out|, 16, |r|);
  }

  /** The header as `replace` writes it: magic, start offset, file size,
      entry count, 1, name field width, then a zero 64-bit integer. When every
      value packs, each reads back from where the parser reads it. */
  method PackHeader(startOffset: int, fileSize: int, count: int, nameLength: int) returns (header: seq<byte>)
    ensures header == HeaderImage(startOffset, fileSize, count, nameLength)
    ensures Fits32(startOffset) && Fits32(fileSize) && Fits32(count) && Fits32(nameLength) ==>
              && header[..4] == Magic
              && I32At(header, 4) == startOffset && I32At(header, 8) == fileSize && I32At(header, 12) == count
              && I32At(header, 16) == 1 && I32At(header, 20) == nameLength
              && header[24..] == Zeros(8)
  {
    header := Magic;
    header := header + PackI32s([startOffset, fileSize, count, 1, nameLength]);
    header := header + Zeros(8);
    if Fits32(startOffset) && Fits32(fileSize) && Fits32(count) && Fits32(nameLength) {
      HeaderReadsBack(startOffset, fileSize, count, nameLength);
    }
  }

  /** One table record as `replace` writes it: the encoded name, NUL bytes up
      to the name field width, then id, relative offset, size and 0. For an
      entry that packs and fits the field, each part reads back. */
  method PackRecord(e: Entry, nameLength: int, startOffset: int) returns (record: seq<byte>)
    ensures record == RecordImage(e, nameLength, startOffset)
    ensures RecordPackable(e, startOffset) && |e.name| <= nameLength ==> HoldsRecord(record, e, nameLength, startOffset)
  {
    record := AsciiEncode(e.name);
    record := record + Zeros(Max(0, nameLength - |e.name|));
    record := record + PackI32s([e.id, e.offset - startOffset, e.size, 0]);
    if RecordPackable(e, startOffset) && |e.name| <= nameLength {
      RecordImageHolds(e, nameLength, startOffset);
    }
  }

  /** The table loop of `replace`: each record, then zero padding to 16. */
  method AppendTable(out: seq<byte>, files: seq<Entry>, nameLength: int, startOffset: int) returns (r: seq<byte>)
    ensures r == PadJoin(out, Records(files, nameLength, startOffset), |files|)
  {
    ghost var records := Records(files, nameLength, startOffset);
    r := out;
    for k := 0 to |files|
      invariant r == PadJoin(out, records, k)
    {
      var record := PackRecord(files[k], nameLength, startOffset);
      assert record == records[k];
      PadJoinNext(out, records, k);
      r := PadTo16(r + record);
    }
  }

  /**
   * The replacement file copied in `BufferSize` pieces until a read returns
   * nothing, then zeros up to the entry's size if the file is shorter.
   */
  method AppendReplacement(out: seq<byte>, e: Entry, payload: seq<byte>) returns (r: seq<byte>)
    ensures r == out + payload + Zeros(Max(0, e.size - |payload|))
  {
    r := out;
    var bytesWritten := 0;
    while true
      invariant 0 <= bytesWritten <= |payload|
      invariant r == out + payload[..bytesWritten]
      decreases |payload| - bytesWritten
    {
      var data := ReadAt(payload, bytesWritten, BufferSize);
      if |data| == 0 {
        break;
      }
      r := r + data;
      assert payload[..bytesWritten + |data|] == payload[..bytesWritten] + data;
      bytesWritten := bytesWritten + |data|;
    }
    assert payload[..bytesWritten] == payload;
    var remainingSize := e.size - bytesWritten;
    if remainingSize > 0 {
      r := r + Zeros(remainingSize);
    } else {
      assert Zeros(0) == [];
    }
  }

  /** The bytes `replace` writes for entry e: the replacement file for the
      target, else `e.size` bytes read from the archive at source. */
  method CopyChunk(e: Entry, source: int, targetId: int, payload: seq<byte>, archive: seq<byte>)
    returns (chunk: seq<byte>)
    requires e.id != targetId ==> source >= 0 && e.size >= -1
    ensures chunk == Chunk(e, source, targetId, payload, archive)
  {
    if e.id == targetId {
      chunk := AppendReplacement([], e, payload);
    } else {
      chunk := ReadAt(archive, source, e.size);
    }
  }

  /** The payload loop of `replace`: each entry's bytes, then zero padding to 16. */
  method AppendPayloads(out: seq<byte>, files: seq<Entry>, sources: seq<int>, targetId: int,
                        payload: seq<byte>, archive: seq<byte>) returns (r: seq<byte>)
    requires SourcesValid(files, sources, targetId)
    ensures r == PadJoin(out, Chunks(files, sources, targetId, payload, archive), |files|)
  {
    ghost var chunks := Chunks(files, sources, targetId, payload, archive);
    r := out;
    for k := 0 to |files|
      invariant r == PadJoin(out, chunks, k)
    {
      var chunk := CopyChunk(files[k], sources[k], targetId, payload, archive);
      assert chunk == chunks[k];
      r := PadTo16(r + chunk);
    }
  }

  /** The rounding arithmetic of `recalculate_values` computes AlignUp. */
  lemma {:induction false} StartFormula(width: int, n: nat, entrySize: int, start: int)
    requires entrySize == ((width + 16 + 15) / 16) * 16
    requires start == ((32 + n * entrySize + 15) / 16) * 16
    ensures start == AlignUp(HeaderSize + n * RecordSize(width), 16)
  {
    assert entrySize == RecordSize(width);
  }

  /** The four steps of `recalculate_values` together give its result. */
  lemma {:induction false} RecalculatedSteps(before: seq<Entry>, after: seq<Entry>, nameLength: int, startOffset: int, fileSize: int)
    requires |before| > 0
    requires nameLength == AlignUp(MaxNameLength(before) + 1, 4)
    requires startOffset == AlignUp(HeaderSize + |before| * RecordSize(nameLength), 16)
    requires IsLayout(before, after, startOffset) && fileSize == LayoutEnd(after)
    ensures Recalculated(before, after, nameLength, startOffset, fileSize)
  {
  }

  class FileHeader {
    /** The bytes of the archive file at `file_path`. */
    var archive: seq<byte>
    var startOffset: int
    var fileSize: int
    var countOfFiles: int
    var nameLength: int
    var files: seq<Entry>

    constructor (archive: seq<byte>, t: Table)
      ensures this.archive == archive && AsTable() == t
    {
      this.archive := archive;
      startOffset := t.startOffset;
      fileSize := t.fileSize;
      countOfFiles := t.countOfFiles;
      nameLength := t.nameLength;
      files := t.files;
    }

    function AsTable(): Table
      reads this
    {
      Table(startOffset, fileSize, countOfFiles, nameLength, files)
    }

    /**
     * `FileHeader(pac_path)`: reads the header fields one by one, then the
     * table. Fails exactly when Parse does, with the same error.
     */
    static method Open(s: seq<byte>) returns (r: Result<FileHeader>)
      ensures r.Err? <==> Parse(s).Err?
      ensures r.Err? ==> r.error == Parse(s).error
      ensures r.Ok? ==> fresh(r.value) && r.value.archive == s && r.value.AsTable() == Parse(s).value
    {
      var magic := ReadAt(s, 0, 4);
      assert magic == Slice(s, 0, 4);
      if !AllAscii(magic) {
        return Err(NotAscii);
      }
      if magic != Magic {
        return Err(BadMagic);
      }
      // start_offset, file_size and count at 4, 8 and 12, one skipped int,
      // name_length at 20: the last of these reads ends at byte 24
      if |s| < 24 {
        return Err(Truncated);
      }
      var startOffset := I32At(ReadAt(s, 4, 4), 0);
      var fileSize := I32At(ReadAt(s, 8, 4), 0);
      var count := I32At(ReadAt(s, 12, 4), 0);
      var nameLength := I32At(ReadAt(s, 20, 4), 0);
      I32AtSlice(s, 4);
      I32AtSlice(s, 8);
      I32AtSlice(s, 12);
      I32AtSlice(s, 20);
      assert startOffset == I32At(s, 4) && fileSize == I32At(s, 8);
      assert count == I32At(s, 12) && nameLength == I32At(s, 20);
      var table := ReadTable(s, count, nameLength, startOffset);
      if table.Err? {
        return Err(table.error);
      }
      var h := new FileHeader(s, Table(startOffset, fileSize, count, nameLength, table.value));
      return Ok(h);
    }

    /** The size of every entry with id targetId set to n (the loop at the
        start of `replace`). */
    method ResizeTarget(targetId: int, n: int)
      modifies this
      ensures files == WithSize(old(files), targetId, n)
      ensures archive == old(archive) && startOffset == old(startOffset) && fileSize == old(fileSize)
      ensures countOfFiles == old(countOfFiles) && nameLength == old(nameLength)
    {
      for i := 0 to |files|
        modifies this`files
        invariant |files| == |old(files)|
        invariant forall j :: 0 <= j < i ==> files[j] == WithSize(old(files), targetId, n)[j]
        invariant forall j :: i <= j < |files| ==> files[j] == old(files)[j]
      {
        if files[i].id == targetId {
          files := files[i := files[i].(size := n)];
        }
      }
    }

    /**
     * `recalculate_values`: the name field width from the longest name, the
     * start of the payload area after the padded table, every offset chained
     * from it, and the total size rounded up to 16. An empty table makes
     * `max` raise, so at least one entry is required.
     */
    method RecalculateValues()
      requires |files| > 0
      modifies this
      ensures Recalculated(old(files), files, nameLength, startOffset, fileSize)
      ensures archive == old(archive) && countOfFiles == old(countOfFiles)
    {
      ghost var before := files;
      ComputeNameLength();
      ComputeStartOffset();
      ChainOffsets();
      ComputeFileSize();
      RecalculatedSteps(before, files, nameLength, startOffset, fileSize);
    }

    /** The longest name length, then the name field width: the longest name plus a
        NUL, rounded up to 4. */
    method ComputeNameLength()
      requires |files| > 0
      modifies this`nameLength
      ensures nameLength == AlignUp(MaxNameLength(files) + 1, 4)
    {
      var num := MaxNameLength(files);
      nameLength := ((num + 1 + 3) / 4) * 4;
    }

    /** The start of the payload area: the header and one record of
        `name_length + 16` bytes rounded up to 16 per entry, rounded up to 16. */
    method ComputeStartOffset()
      modifies this`startOffset
      ensures startOffset == AlignUp(HeaderSize + |files| * RecordSize(nameLength), 16)
    {
      var headerEntrySize := nameLength + 16;
      headerEntrySize := ((headerEntrySize + 15) / 16) * 16;
      var headerSize := 32 + |files| * headerEntrySize;
      var start := ((headerSize + 15) / 16) * 16;
      StartFormula(nameLength, |files|, headerEntrySize, start);
      startOffset := start;
    }

    /** The end of the last entry, counted up one byte at a time to a multiple of 16. */
    method ComputeFileSize()
      requires |files| > 0
      modifies this`fileSize
      ensures fileSize == LayoutEnd(files)
    {
      var lastFile := files[|files| - 1];
      fileSize := lastFile.offset + lastFile.size;
      while fileSize % 16 != 0
        invariant lastFile.offset + lastFile.size <= fileSize <= LayoutEnd(files)
        decreases LayoutEnd(files) - fileSize
      {
        fileSize := fileSize + 1;
      }
      AlignUpLeast(lastFile.offset + lastFile.size, 16, fileSize);
    }

    /** The offset loop of `recalculate_values`: the first entry at
        start_offset, each next one at the previous end rounded up to 16. */
    method ChainOffsets()
      requires |files| > 0
      modifies this`files
      ensures IsLayout(old(files), files, startOffset)
    {
      files := files[0 := files[0].(offset := startOffset)];
      for i := 1 to |files|
        invariant |files| == |old(files)|
        invariant forall j :: 0 <= j < |files| ==> files[j] == old(files)[j].(offset := files[j].offset)
        invariant files[0].offset == startOffset
        invariant forall j :: 1 <= j < i ==> Follows(files, j)
      {
        var previousFile := files[i - 1];
        var currentFile := files[i].(offset := previousFile.offset + previousFile.size);
        currentFile := currentFile.(offset := ((currentFile.offset + 15) / 16) * 16);
        ghost var before := files;
        files := files[i := currentFile];
        forall j | 1 <= j <= i ensures Follows(files, j) {
          if j < i {
            assert Follows(before, j);
          }
        }
      }
    }

    /**
     * Writes the header, the table and the payloads to a new image and, if
     * no `struct.pack`, ASCII encoding or seek fails on the way, makes it the
     * archive. Entry k other than the target is copied from sources[k].
     */
    method Rewrite(targetId: int, payload: seq<byte>, sources: seq<int>) returns (ok: bool)
      modifies this
      ensures ok == Writable(files, nameLength, startOffset, fileSize, targetId, sources)
      ensures ok ==> archive == Image(files, nameLength, startOffset, fileSize, targetId, sources, payload, old(archive))
      ensures !ok ==> archive == old(archive)
      ensures files == old(files) && startOffset == old(startOffset) && fileSize == old(fileSize)
      ensures countOfFiles == old(countOfFiles) && nameLength == old(nameLength)
    {
      if !Writable(files, nameLength, startOffset, fileSize, targetId, sources) {
        return false;
      }
      var out := PackHeader(startOffset, fileSize, |files|, nameLength);
      out := AppendTable(out, files, nameLength, startOffset);
      out := AppendPayloads(out, files, sources, targetId, payload, archive);
      archive := out;
      return true;
    }

    /**
     * `replace` as written: it sets the target's size, recalculates the
     * layout, and then copies every other entry from its recalculated offset.
     */
    method Replace(targetId: int, payload: seq<byte>) returns (ok: bool)
      modifies this
      ensures old(files) == [] ==> !ok && archive == old(archive) && files == []
      ensures old(files) == [] ==> nameLength == old(nameLength) && startOffset == old(startOffset) && fileSize == old(fileSize)
      ensures old(files) != [] ==> Recalculated(WithSize(old(files), targetId, |payload|), files, nameLength, startOffset, fileSize)
      ensures ok <==> old(files) != [] && Writable(files, nameLength, startOffset, fileSize, targetId, Offsets(files))
      ensures ok ==> archive == Image(files, nameLength, startOffset, fileSize, targetId, Offsets(files), payload, old(archive))
      ensures !ok ==> archive == old(archive)
      ensures countOfFiles == old(countOfFiles)
    {
      if |files| == 0 {
        return false;
      }
      ResizeTarget(targetId, |payload|);
      RecalculateValues();
      ok := Rewrite(targetId, payload, Offsets(files));
    }

    /**
     * `replace` copying every other entry from the offset it had when the
     * table was read, so that each keeps its own bytes.
     */
    method ReplaceKeepingOffsets(targetId: int, payload: seq<byte>) returns (ok: bool)
      modifies this
      ensures old(files) == [] ==> !ok && archive == old(archive) && files == []
      ensures old(files) == [] ==> nameLength == old(nameLength) && startOffset == old(startOffset) && fileSize == old(fileSize)
      ensures old(files) != [] ==> Recalculated(WithSize(old(files), targetId, |payload|), files, nameLength, startOffset, fileSize)
      ensures ok <==> old(files) != [] && Writable(files, nameLength, startOffset, fileSize, targetId, Offsets(old(files)))
      ensures ok ==> archive == Image(files, nameLength, startOffset, fileSize, targetId, Offsets(old(files)), payload, old(archive))
      ensures !ok ==> archive == old(archive)
      ensures countOfFiles == old(countOfFiles)
    {
      if |files| == 0 {
        return false;
      }
      var sources := Offsets(files);
      ResizeTarget(targetId, |payload|);
      RecalculateValues();
      ok := Rewrite(targetId, payload, sources);
    }

    /**
     * `extract_all_files(dir_path)`: for each entry in turn, creates (or
     * empties) dir_path + "/" + its name, seeks to its offset and copies its
     * bytes, at most `BufferSize` at a time. The file system decides which
     * paths `open` can create: those are `openable`. An output path outside
     * it makes `open` raise, and extraction stops before that entry's file
     * exists. A negative offset makes `seek` raise: extraction stops there
     * with that entry's file left empty. The entries reached must lie inside
     * the archive, or the copy never ends.
     */
    method ExtractAllFiles(dir: map<string, seq<byte>>, dirPath: string, openable: set<string>) returns (out: map<string, seq<byte>>, ok: bool)
      requires Extractable(files, archive, FirstFailure(files, dirPath, openable, 0))
      ensures ok <==> FirstFailure(files, dirPath, openable, 0) == |files|
      ensures ok ==> out == Extracted(dir, dirPath, files, archive, |files|)
      ensures !ok ==> var bad := FirstFailure(files, dirPath, openable, 0);
                      var path := OutputPath(dirPath, files[bad].name);
                      var before := Extracted(dir, dirPath, files, archive, bad);
                      bad < |files| && out == if path in openable then before[path := []] else before
    {
      out := dir;
      for k := 0 to |files|
        invariant k <= FirstFailure(files, dirPath, openable, 0)
        invariant out == Extracted(dir, dirPath, files, archive, k)
      {
        var path := OutputPath(dirPath, files[k].name);
        if path !in openable {
          return out, false;
        }
        var created := out[path := []];
        if files[k].offset < 0 {
          return created, false;
        }
        var data := CopyOut(files[k], archive);
        out := created[path := data];
        assert out == Extracted(dir, dirPath, files, archive, k)[path := data];
      }
      ok := true;
    }
  }

  /** The copy loop of `extract_all_files` for one entry: `BufferSize` bytes
      at a time from its offset until `file_size` bytes are read. */
  method CopyOut(e: Entry, archive: seq<byte>) returns (data: seq<byte>)
    requires 0 <= e.offset && (e.size > 0 ==> e.offset + e.size <= |archive|)
    ensures data == Content(e, archive)
  {
    data := [];
    var num := e.size;
    var pos: nat := e.offset;
    while num > 0
      invariant e.size > 0 ==> e.offset <= pos <= e.offset + e.size && num == e.offset + e.size - pos
      invariant e.size > 0 ==> data == archive[e.offset..pos]
      invariant e.size <= 0 ==> data == [] && num == e.size
      decreases num
    {
      var chunk := ReadAt(archive, pos, if num < BufferSize then num else BufferSize);
      assert archive[e.offset..pos + |chunk|] == archive[e.offset..pos] + chunk;
      data := data + chunk;
      pos := pos + |chunk|;
      num := num - |chunk|;
    }
  }
}
