# FPAC archives, XSB checksums and command argument converters

This project models, in Dafny, the file-handling core of a chat bot that
patches the sound of a fighting game. The core has three parts.

- **The FPAC archive** (`config/utils/pacfile.py`). An archive is a 32-byte
  little-endian header (magic "FPAC", start offset, file size, entry count,
  name length), then a table of fixed-width records (name, id, offset relative
  to the start offset, size), then the payloads. Each payload is aligned to 16
  bytes. `FileHeader` parses an archive into a list of entries.
  `recalculate_values` recomputes the layout. `replace` rewrites the archive
  with one entry's payload swapped, and `extract_all_files` copies every entry
  out to a directory.
- **The XACT sound bank editor and wave-bank lookup** (`config/utils/xwb.py`).
  - `XSBEditor` stores the PPP 16-bit frame check sequence (RFC 1662, Appendix
    C.2) of bytes 18 onwards of a `.xsb` file, little-endian, at offset 8. It
    also overwrites the control bytes at 0xCD and 0xDB.
  - `XWBCreator.replace_xwb` picks the archive entry that a new `.xwb` wave bank
    replaces, with a last-match-wins scan.
- **The argument converters** (`config/utils/convertors.py`). `PacFileConverter`
  accepts attachments that start with "FPAC". `AudioConverter` accepts a URL,
  with any YouTube playlist part cut off, or an audio attachment.

Modules:
- `Binary` (binary.dfy) holds bytes, little-endian integers, alignment, and
  Python's read/seek/write semantics on a byte sequence.
- `Text` (text.dfy) holds ASCII lower-casing, substring search and `split`.
- `PacLayout` (pac_layout.dfy) holds the archive format as functions: what
  parsing yields, what the recalculation derives, and the exact bytes the
  rewrite produces, with the lemmas about them.
- `PacFile` (pac_file.dfy) holds the `FileHeader` class. Its methods update its
  fields and its archive in place, and are proved against `PacLayout`.
- `Xwb` (xwb.dfy) holds the `XsbEditor` class, the FCS-16 checksum, the
  wave-bank lookup and `ReplaceXwb`.
- `Convertors` (convertors.dfy) holds the converters as pure functions.

Files are byte sequences held in fields: `FileHeader.archive` is the archive
file, and `XsbEditor.contents` is the sound bank. Whether a path exists is a
parameter. A directory is a map from paths to contents. Python exceptions
become error results: `Result`/`PacError` for parsing, `ok == false` for the
editors and the rewrite, and `XwbOutcome` and `Outcome` for the lookup and
the converters.

## Model

| member | source | states |
|---|---|---|
| PacLayout.Parse | config/utils/pacfile.py:63-83 | A parse succeeds only if the first four bytes are "FPAC". On success it yields exactly max(count, 0) entries in table order. Every entry's name is free of NUL and every offset is a multiple of 16. Every record the loop read lay inside the file. With a positive count and a name_length below -1, it fails with BadReadLength, the ValueError of `read`. |
| PacLayout.ParseChecksMagic | config/utils/pacfile.py:64-67 | Non-ASCII leading bytes fail with the decode error. The magic error arises exactly when the first four bytes are ASCII but not "FPAC". |
| PacLayout.FirstFaultNotMagic | config/utils/pacfile.py:76-83 | Reading the table never fails with the magic error. |
| PacLayout.StripNulRemoves | config/utils/pacfile.py:78 | Removing NULs leaves no NUL, never lengthens the name, and keeps a NUL-free name as it is. |
| PacLayout.RecordFault | config/utils/pacfile.py:77-81 | A record that reads without an error lies wholly inside the file. A name_length below -1 fails first, with the ValueError of `read`. |
| PacLayout.RecordEntry | config/utils/pacfile.py:78-81 | Defines the entry read from a record: the decoded name without NULs, the id, the stored offset plus start_offset rounded up to 16, and the size. Its properties are stated by FullRecord, RecordEntryClean and RecordReadsAsEntry. |
| PacLayout.ShortField | config/utils/pacfile.py:79-81 | A 4-byte field that reads short makes the record fail as truncated. |
| PacLayout.FullRecord | config/utils/pacfile.py:78-81 | An ASCII name and three integer fields inside the file read without error. They give the entry: the name with NULs removed, the id, the stored offset plus start_offset rounded up to 16, and the size. |
| PacLayout.NoFaultInBounds | config/utils/pacfile.py:76-83 | If no record fails, every record the loop visits lies inside the file. There is no other bounds check. |
| PacLayout.EntriesClean | config/utils/pacfile.py:76-83 | Every entry read has a NUL-free name and a 16-aligned offset. |
| PacLayout.StridesAgree | config/utils/pacfile.py:78-82 | With a name field that is a multiple of 4, the parser advances name_length + 16 per record. That equals the written record size if and only if the name field is a multiple of 16. |
| PacLayout.ReadWhereWritten | config/utils/pacfile.py:118-128 | With a name field that is a multiple of 16, the parser reads record k at the position where the rewrite wrote it, 32 + k * record size. |
| PacLayout.MaxNameLength | config/utils/pacfile.py:158 | The result is at least every name's length and equals one of them. |
| PacLayout.RecalculatedWidths | config/utils/pacfile.py:158-166 | name_length is the least multiple of 4 above the longest name, so every written name has at least one NUL after it. start_offset is 16-aligned and equals 32 + n * AlignUp(name_length + 16, 16). |
| PacLayout.RecalculatedOffsets | config/utils/pacfile.py:168-179 | All offsets and file_size are multiples of 16. With non-negative sizes, the entries start at or after start_offset, do not overlap, and end within file_size. |
| PacLayout.ChainedOrdered | config/utils/pacfile.py:169-173 | Along the chained offsets, an earlier entry ends before any later one starts. |
| PacLayout.LayoutUnique | config/utils/pacfile.py:168-173 | The recomputed offsets are determined by the entries and start_offset alone. |
| PacLayout.WithSize | config/utils/pacfile.py:104-106 | Only entries with the target id change, and only in their size. Names, ids, offsets and order are kept. |
| PacLayout.HeaderReadsBack | config/utils/pacfile.py:110-116 | When every value fits 32 bits, the written header starts with "FPAC" and ends with eight zero bytes. Each field reads back from the offset the parser reads it at: start_offset at 4, file_size at 8, the count at 12, 1 at 16 and name_length at 20. |
| PacLayout.NameFieldReads | config/utils/pacfile.py:119-121 | A NUL-free ASCII name followed by NUL padding is all ASCII, and it decodes back to the name once the NULs are removed. |
| PacLayout.RecordNameReadsBack | config/utils/pacfile.py:119-121 | In the record of a packable entry whose name fits, the name bytes decode to the name and the padding up to name_length is zero. Without NULs in the name, the whole name field reads back as the name. |
| PacLayout.RecordReadsBack | config/utils/pacfile.py:122-125 | The four integers after the name field are the id, the offset minus start_offset, the size and 0. |
| PacLayout.RecordImageHolds | config/utils/pacfile.py:118-125 | The record image of a packable entry whose name fits is name_length + 16 bytes and holds the entry in every part. |
| PacLayout.RecordReadsAsEntry | config/utils/pacfile.py:77-82 | Wherever a record written for an entry lies, the parser reads that entry back, if the entry packs, its name is NUL-free and its offset is a multiple of 16. |
| PacLayout.WrittenRecordReads | config/utils/pacfile.py:118-128 | With a name field that is a multiple of 16, the parser reads record k of the rewritten archive back as entry k. This holds when the entry packs, its name has no NUL and its offset is 16-aligned. |
| PacLayout.RecordInImage | config/utils/pacfile.py:118-128 | In the rewritten archive, record i (name, NUL padding, id, offset - start_offset, size, 0) lies at 32 + i * record size. |
| PacLayout.ImageFrame | config/utils/pacfile.py:110-153 | When every copy reads its full size, the rewritten archive is exactly file_size bytes and begins with the header. |
| PacLayout.PayloadsInImage | config/utils/pacfile.py:130-153 | When every copy reads its full size, each payload lies at its recomputed offset. The target's payload is the replacement file zero-filled up to its size. |
| PacLayout.ReplaceKeepsOtherPayloads | config/utils/pacfile.py:99-153 | Copying from the offsets as they were read, the rewritten archive holds the new payload for the target and every other entry's original bytes, each at its recomputed offset. |
| PacLayout.AsWrittenReadsNewOffsets | config/utils/pacfile.py:147-150 | The rewrite as written stores, for a non-target entry, the archive bytes at its recomputed offset, not at its original one. |
| PacLayout.ExampleRecalculated | config/utils/pacfile.py:157-179 | It gives the layout that recalculation produces for the two-entry example of the finding. |
| PacLayout.ReplaceAsWrittenCopiesWrongBytes | config/utils/pacfile.py:108-150 | In that example, the bytes written for "b" are the tail of "a" and differ from b's own bytes. |
| PacLayout.Content | config/utils/pacfile.py:89-95 | An extracted file holds max(size, 0) bytes. |
| PacLayout.OutputPathInjective | config/utils/pacfile.py:88 | Different entry names give different output paths. |
| PacLayout.ExtractedLast | config/utils/pacfile.py:85-95 | After extraction, the output file of the last entry with a given name holds exactly archive[offset .. offset + size). |
| PacLayout.ExtractedOthers | config/utils/pacfile.py:85-95 | Extraction leaves every path that no entry names as it was. |
| Binary.AlignUp | config/utils/pacfile.py:80 | `(x + m - 1) // m * m` is a multiple of m in [x, x + m). |
| Binary.AlignUpLeast | config/utils/pacfile.py:159 | No multiple of m between x and AlignUp(x, m) is smaller than it. |
| Binary.Padded | config/utils/pacfile.py:127-128 | Padding gives a multiple of 16 and adds fewer than 16 bytes. It keeps the bytes before it, and every added byte is zero. |
| Binary.ReadAt | config/utils/pacfile.py:93 | `seek(pos); read(n)` returns the n bytes at pos, fewer at the end of the file, and the rest of the file for n == -1. A count below -1 is not a read: Python raises ValueError, and each caller models that error before reading. |
| Binary.WriteAt | config/utils/xwb.py:68-69 | `seek(pos); write(b)` puts b at pos, leaves every other byte, and grows a short file with zeros. |
| Binary.Le32Reads | config/utils/pacfile.py:122-124 | Unpacking `struct.pack("<i", v)` gives back v for every 32-bit v. |
| Binary.PackI32sReads | config/utils/pacfile.py:111-116 | After consecutive packs, the integer unpacked at 4 * j is the j-th value packed, when that value fits 32 bits. |
| Binary.AsciiRoundTrip | config/utils/pacfile.py:119 | An ASCII name encodes to ASCII bytes that decode back to the name. |
| Text.BeforeFirst | config/utils/convertors.py:30 | `split(sep)[0]` is a prefix without sep, and the whole string when sep is absent. Otherwise it ends exactly where the first occurrence of sep starts: sep occurs there and at no earlier index. |
| Text.Find | config/utils/convertors.py:29 | The result is the first occurrence of the needle, and nothing is returned only when there is none. |
| PacFile.ReadI32 | config/utils/pacfile.py:79-81 | Unpacking a 4-byte read fails exactly when fewer than four bytes remain. Otherwise it gives the signed little-endian integer stored there. |
| PacFile.ReadRecord | config/utils/pacfile.py:77-82 | Reading one record fails exactly when the record is faulty, with its error, and otherwise yields the record's entry. |
| PacFile.ReadTable | config/utils/pacfile.py:76-83 | The record loop fails with the first record's error, or yields all count entries. |
| PacFile.PadTo16 | config/utils/pacfile.py:127-128 | The `tell() % 16` loop gives the zero-padded output. |
| PacFile.PackHeader | config/utils/pacfile.py:110-116 | The seven writes produce the header image. When every value fits 32 bits, the header reads back as "FPAC", start_offset, file_size, the count, 1 and name_length at offsets 4 to 20, then eight zero bytes. |
| PacFile.PackRecord | config/utils/pacfile.py:118-125 | The six writes produce the record image. For a packable entry whose name fits, the record is name_length + 16 bytes. Its name bytes decode to the name and its padding is zero. It then holds the id, the offset minus start_offset, the size and 0. |
| PacFile.AppendTable | config/utils/pacfile.py:118-128 | The table loop appends each record, each padded to 16. |
| PacFile.AppendReplacement | config/utils/pacfile.py:134-146 | The buffered copy writes the whole replacement file, then zeros up to the entry's size. |
| PacLayout.Chunk | config/utils/pacfile.py:133-150 | Defines the bytes written for one entry: the replacement file zero-filled up to the size for the target, and `read(size)` at the source offset for any other entry. That read is defined only for a non-negative source and a size of at least -1, the cases in which the seek and the read do not raise. |
| PacFile.CopyChunk | config/utils/pacfile.py:133-150 | It writes the replacement for the target and size bytes from the source offset for any other entry. It is called only where the seek and the read cannot raise. |
| PacFile.AppendPayloads | config/utils/pacfile.py:130-153 | The payload loop appends each entry's chunk, each padded to 16. |
| PacFile.CopyOut | config/utils/pacfile.py:89-95 | The buffered copy loop terminates and yields exactly the entry's content. |
| PacFile.FileHeader.constructor | config/utils/pacfile.py:52-61 | It holds the archive and the given header values. |
| PacFile.FileHeader.Open | config/utils/pacfile.py:53-83 | Construction fails exactly when parsing fails, with the same error. Otherwise the fields hold the parsed table. |
| PacFile.FileHeader.ResizeTarget | config/utils/pacfile.py:104-106 | The entries become WithSize of the old ones. Nothing else changes. |
| PacFile.FileHeader.RecalculateValues | config/utils/pacfile.py:157-179 | The new name_length, start_offset, offsets and file_size are those of the recalculation of the old entries. |
| PacFile.FileHeader.ComputeNameLength | config/utils/pacfile.py:158-159 | name_length becomes the longest name's length plus one, rounded up to 4. |
| PacFile.FileHeader.ComputeStartOffset | config/utils/pacfile.py:161-166 | start_offset becomes the header plus one 16-aligned record per entry, rounded up to 16. |
| PacFile.FileHeader.ChainOffsets | config/utils/pacfile.py:168-173 | The offsets chain from start_offset. Every other field of every entry is kept. |
| PacFile.FileHeader.ComputeFileSize | config/utils/pacfile.py:175-179 | The counting loop ends at the last entry's end rounded up to 16. |
| PacLayout.Image | config/utils/pacfile.py:110-153 | Defines the rewritten archive: the header, each table record padded to 16, then each entry's chunk padded to 16. Its layout is stated by ImageFrame, RecordInImage, PayloadsInImage and WrittenRecordReads. |
| PacFile.FileHeader.Rewrite | config/utils/pacfile.py:110-155 | The archive becomes the image when no pack, encode, seek or read fails, and is otherwise untouched. A read fails when a non-target entry's size is below -1. |
| PacFile.FileHeader.Replace | config/utils/pacfile.py:99-155 | As written: the entries are resized and recalculated, and the archive becomes the image copied from the recomputed offsets. An empty table fails and leaves the archive, name_length, start_offset and file_size untouched. Any failing pack, encode, seek or read also leaves the archive untouched, including the read for a non-target entry whose size is below -1. |
| PacFile.FileHeader.ReplaceKeepingOffsets | config/utils/pacfile.py:99-155 | Corrected: the same, except the other entries are copied from the offsets they were read with. An empty table keeps the archive and every header field. Every failure mode of Replace, including a non-target size below -1, still leaves the archive untouched. |
| PacLayout.FirstFailure | config/utils/pacfile.py:87-91 | It gives the first entry, in table order, whose output path cannot be opened for writing or whose offset is negative, or the table's end when there is none. |
| PacFile.FileHeader.ExtractAllFiles | config/utils/pacfile.py:85-95 | It succeeds exactly when every output path can be opened and no offset is negative. The directory then holds each entry's content at dir_path + "/" + name, with later entries overwriting earlier ones. It stops at the first entry that fails, with the entries before it extracted and nothing after it written. If that entry's `open` raises (a directory such as the path for the names "", "." and "..", or a missing subdirectory), its file is not created. If its seek raises on a negative offset, its file is left created and empty. |
| Xwb.FcsTableSize | config/utils/xwb.py:26-53 | The table has 256 entries. Its element type keeps each entry, and so the register, below 65536. |
| Xwb.Fcs | config/utils/xwb.py:58-65 | Defines the register after the loop: the initial value with every byte folded in, in file order. Its properties are stated by ChecksumOfRegion, StoringKeepsChecksum and CalculateChecksum. |
| Xwb.Checksum | config/utils/xwb.py:61-67 | Defines the stored value: the complement of the register over the bytes from offset 18 on. |
| Xwb.WithChecksum | config/utils/xwb.py:58-69 | Defines the file after `calculate_checksum`: the checksum written little-endian at offset 8. Its properties are stated by ChecksumWritesBytes8And9 and ChecksumIdempotent. |
| Xwb.SummedRegion | config/utils/xwb.py:61-63 | `seek(18); read()` yields the bytes from offset 18 on, or none for a shorter file. |
| Xwb.ChecksumOfRegion | config/utils/xwb.py:58-67 | The checksum depends only on the bytes from offset 18 on. |
| Xwb.Le16RoundTrip | config/utils/xwb.py:69 | `pack("<H", v)` puts the low byte first, and the two bytes read back as v. |
| Xwb.ChecksumWritesBytes8And9 | config/utils/xwb.py:68-69 | Storing the checksum puts its low byte at 8 and its high byte at 9 and changes nothing else. A shorter file grows to 10 bytes. |
| Xwb.WriteKeepsRegion | config/utils/xwb.py:61-69 | Two bytes written at offset 8 leave the summed region unchanged. |
| Xwb.StoringKeepsChecksum | config/utils/xwb.py:61-69 | The file after storing its checksum has the same checksum. |
| Xwb.ChecksumIdempotent | config/utils/xwb.py:58-69 | Recomputing the checksum a second time changes nothing. |
| Xwb.WithByteSetsOnlyIt | config/utils/xwb.py:72-76 | Writing one byte sets exactly that byte and keeps all others. |
| Xwb.XsbEditor.constructor | config/utils/xwb.py:22-23 | It holds the path and the file it names. |
| Xwb.XsbEditor.CalculateChecksum | config/utils/xwb.py:55-69 | It refuses a missing path or a path without a ".xsb" ending (case-insensitive) and leaves the file untouched. Otherwise the fold loop computes the FCS register and the file becomes the one with its checksum stored. |
| Xwb.XsbEditor.WriteByteAtOffset | config/utils/xwb.py:72-76 | It fails only on a missing file. Otherwise exactly the byte at the offset is set. |
| Xwb.XsbEditor.WriteSound | config/utils/xwb.py:79-80 | It sets exactly the byte at 0xCD. |
| Xwb.XsbEditor.WriteTrack | config/utils/xwb.py:82-83 | It sets exactly the byte at 0xDB. |
| Xwb.LastMatch | config/utils/xwb.py:194-200 | It returns the last index, in table order, whose entry meets either rule. It returns nothing only when no entry does. |
| Xwb.FindEntryToReplace | config/utils/xwb.py:192-200 | The scan that reassigns on every match ends holding the last matching entry, or none. |
| Xwb.Locate | config/utils/xwb.py:191-203 | Opening fails exactly when parsing fails, with its error. Not-found arises exactly when the archive parses and no entry matches. Otherwise the freshly opened header holds the parsed table, and the target is the last matching entry. |
| Xwb.ReplaceXwb | config/utils/xwb.py:191-205 | An unreadable archive gives the parse error. No match gives not-found, with nothing written. Otherwise the table is the recalculation of the parsed one with the last match resized to the new wave bank. The rewrite succeeds exactly when that table is writable while copying from the recomputed offsets, as `replace` is written. The archive is then the image copied from those offsets. Writability includes a size of at least -1 for every non-target entry, since `read` raises below that. |
| Xwb.ReplaceXwbKeepingOffsets | config/utils/xwb.py:191-205 | Corrected: the same, except the other entries are copied from the offsets they were read with, and success depends on those offsets. |
| Convertors.PacConvert | config/utils/convertors.py:10-21 | Defines the file converter's outcome: a non-attachment is refused, an undecodable head fails to decode, a head other than "FPAC" is refused, and anything else is returned unchanged. Its properties are stated by PacConvertAcceptsMagic and PacConvertAgreesWithParse. |
| Convertors.RemovePlaylist | config/utils/convertors.py:27-32 | Defines the playlist removal with the source's guard as written. Its properties are stated by the RemovePlaylist lemmas. |
| Convertors.AudioConvert | config/utils/convertors.py:34-46 | Defines the audio converter's outcome for a string and for an attachment. Its properties are stated by AudioConvertOutcome. |
| Convertors.MagicDecodes | config/utils/convertors.py:18 | The magic bytes decode to "FPAC". |
| Convertors.DecodesToFpac | config/utils/convertors.py:16-18 | Four ASCII bytes decode to "FPAC" if and only if they are the magic. |
| Convertors.PacConvertAcceptsMagic | config/utils/convertors.py:10-21 | It accepts exactly the attachments whose first four bytes are "FPAC" and returns them unchanged. |
| Convertors.PacConvertAgreesWithParse | config/utils/convertors.py:16-19 | The converter refuses a file as badly structured if and only if the archive parser fails on its magic. An undecodable head fails both with the decode error. |
| Convertors.RemovePlaylistGuard | config/utils/convertors.py:29-30 | The result equals cutting before the first "list=" whenever "youtu" occurs. The guard itself can be false where "youtu" occurs, for example on "https://youtu.be/x", but then there is no "list=" and the cut would keep the whole argument. |
| Convertors.RemovePlaylistNoYoutube | config/utils/convertors.py:27-32 | Without "youtu" the argument is returned unchanged. |
| Convertors.RemovePlaylistPrefix | config/utils/convertors.py:30 | The result is always a prefix of the argument. |
| Convertors.RemovePlaylistCuts | config/utils/convertors.py:29-30 | With "youtu" and "list=", the result ends right at the first "list=" and contains no "list=". |
| Convertors.RemovePlaylistIdempotent | config/utils/convertors.py:27-32 | Removing the playlist twice equals removing it once. |
| Convertors.UrlSearchFinds | config/utils/convertors.py:38 | The left-to-right search succeeds if and only if the URL pattern matches at some position. |
| Convertors.AudioConvertOutcome | config/utils/convertors.py:34-46 | A string is accepted if and only if the URL pattern occurs in it, and comes back with its playlist removed. An attachment is accepted, unchanged, if and only if its lower-cased content type contains "audio". Every refusal carries the audio error message. |

## Left out

- File I/O, `os.path.exists`, `os.path.getsize` and the replacement file's contents are parameters or fields: the archive bytes, a `present` flag, and the payload bytes.
- The fixed `temp.tmp` and `os.replace` (pacfile.py:100,155) are modelled as replacing the archive's bytes wholesale. Rename atomicity and races on the shared temporary name are not modelled.
- `File` objects are values in a sequence. Their identity, their back-reference to the header and `File.__eq__` are not modelled; entries are compared by id, as `replace` does.
- `str.lower()` is modelled on the ASCII letters only. Unicode case mapping is not modelled.
- Xwb.FcsTable: its 256 values are copied from xwb.py:26-53, but they are not proved equal to the table that RFC 1662, Appendix C.2 generates, and the standard check value 0x906E is not proved. The verifier does not evaluate indexing into a literal sequence that long.
- Xwb.Fcs: the register stays below 65536 because its type is a 16-bit bit-vector, not because of a proof about the table's values.
- XWBCreator's construction, audio export, ADPCM compression, `create_xwb`, the path globbing, and the name building in `replace_xwb` (xwb.py:185-189) are not part of this model. They run external processes and touch the file system. `ReplaceXwb` takes the archive bytes and the new wave bank bytes directly.
- PacFile.FileHeader.Rewrite: a `struct.pack` range error, an ASCII encode error, a negative seek, or a `read` with a count below -1 (Python exceptions) is modelled as `ok == false` with the archive untouched. Which exception is raised is not recorded.
- PacFile.FileHeader.RecalculateValues: it requires a non-empty table, because `max` and `files[0]` raise on an empty one. `Replace` and `ReplaceKeepingOffsets` model that case as a failure.
- PacFile.FileHeader.ExtractAllFiles: it requires every non-empty entry before the first failing one to lie inside the archive. Beyond the end of the file the copy loop reads nothing forever, and that non-termination is not modelled. Which paths `open(path, "wb")` can create is decided by the file system, so it is the parameter `openable`: the directory tree, permissions and existing directories are not modelled. The OSError of `open` and the ValueError of a negative seek are both modelled as `ok == false`; which exception is raised is not recorded.
- PacLayout.ImageFrame and PacLayout.PayloadsInImage: these hold only when every copied entry reads its full size from the archive. A short read shifts every later payload.
- The parser and the writer step through the table differently (see `StridesAgree`). The parse-write-parse round trip is stated record by record (`WrittenRecordReads`, for a name field that is a multiple of 16) and for the header (`HeaderReadsBack`), not as one equation on whole archives.
- The URL regular expression is modelled by its effect: "http://" or "https://" followed by one character of its class, found anywhere. The regex engine itself is not modelled.
- The Discord types, `await` and the `error_msg` parameter's default are flattened into `Argument` and the three message constants.

## Findings

| source | as written | input that shows it | evidently intended | confidence | as-written member | corrected member |
|---|---|---|---|---|---|---|
| config/utils/pacfile.py:108-150 | `replace` calls `recalculate_values` before the copy loop. The loop then seeks each non-target entry at its recomputed offset, so when an earlier entry shrinks or grows, other entries get bytes from the wrong place. | Entries "a" (id 1, 32 bytes at 96) and "b" (id 2, 16 bytes at 128) in a 144-byte archive. Replace "a" with 16 bytes: "b" moves to 112, and archive[112..128] is written for it instead of archive[128..144]. | Each other entry is copied from the offset it had when the table was read, so it keeps its own bytes. | not executed | PacLayout.ReplaceAsWrittenCopiesWrongBytes, PacFile.FileHeader.Replace, Xwb.ReplaceXwb | PacLayout.ReplaceKeepsOtherPayloads, PacFile.FileHeader.ReplaceKeepingOffsets, Xwb.ReplaceXwbKeepingOffsets |
