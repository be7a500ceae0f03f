# DeltaVision file core, modelled in Dafny

DeltaVision files are MRC-derived microscopy image files. This project models
the single-header engine that reads and writes them (`src/dvfile.h`). It has
five parts.

- **Pixel types.** A registry maps each pixel-type code to its sample width in
  bytes. An unknown code fails; it never gets a default width.
- **Header.** The header is the 1024-byte `IW_MRC_Header` record. The model
  gives its little-endian wire form, a decoder, and the three values the
  record derives: the axis sequence, the real plane count and the image-type
  label.
- **`DVFile`.** A `DVFile` is a file attached to a stream. The model is a
  class with these fields:
  - the path;
  - the stream: the file's bytes, one shared read/write position, a sticky
    fail bit, and whether a file is attached;
  - the detected byte order;
  - the in-memory header;
  - the `closed` flag.

  Its operations are the byte-order check when opening, creation, section
  positioning and validation, frame reads and writes, open/close, header put,
  and the axis-size map.
- **Handle table.** The IVE-style stream API is a class holding a map from
  small integer identifiers to `DVFile` objects. Each entry owns its object.
- **Header rewrite.** `IMWrHdr` replaces the intensity statistics and applies
  the `strncpy` title rules.

The module `Scenario` walks through the API as one verified sequence of calls:

- create a file and put a header for six 64 x 32 frames of 16-bit samples
  (two wavelengths, three time points);
- write the six frames, then close the file;
- reopen it read-only;
- read back the header and section (z 0, w 1, t 2), which is the sixth frame.

The stream is modelled as a value, and each `std::fstream` operation the core
uses is a function on it:

- **Opening.** `open` follows the open-mode table of `basic_filebuf::open`
  (section [filebuf.members] of ISO/IEC 14882). A successful open resets the
  stream. A failed one sets the fail bit.
- **Seeking.** A seek on a failed stream does nothing. A seek to a negative
  offset, or on a stream with no file attached, sets the fail bit.
- **Reading.** A short read delivers what is there and sets the fail bit.
- **Writing.** A write on an unhealthy stream writes nothing.

The file system is a parameter of the operations that open a file: whether
the path can be opened, and what the file holds.

Three behaviours of the code shape the model:

- **`createNew`.** It value-initialises the object, so `hdr` is all zero
  bytes (`ZeroHeader`) until `putHeader`, and `getHeader` returns those zeros.
- **`sizes()`.** It returns a `std::map`, keyed and ordered by letter, so the
  result holds the same five entries whatever the `interleaved` code is.
- **`open()`.** It reopens with `std::ios::binary` alone; see Findings.

## Model

| member | source | states |
|---|---|---|
| PixelTypes.PixelSize | src/dvfile.h:25-29 | codes 0..7 have the widths 1, 2, 4, 4, 8, 2, 2, 4; every other code, `IW_AS_IS` (-1) included, fails with the unknown-pixel-type error |
| MrcHeader.SequenceOrder | src/dvfile.h:57-64 | the result is always a permutation of "CTZ"; it is "TZC" exactly for code 1, "TCZ" exactly for code 2, and "CTZ" for 0 and every other code |
| MrcHeader.NumPlanes | src/dvfile.h:66 | `num_planes()`: two truncating divisions by the zero-guarded counts; the result is never larger in magnitude than nz, and is non-negative when nz and the counts are |
| Arithmetic.TruncDiv | src/dvfile.h:66 | C's `/` on `int`, truncating toward zero (Dafny's own `/` is Euclidean); defined branch by branch on the operands' signs |
| Arithmetic.TruncDivRemainder | src/dvfile.h:66 | the remainder left by the truncating quotient has the dividend's sign and is smaller in magnitude than the divisor, which is what sets C's division apart from the Euclidean one |
| Arithmetic.QuotientShrinks | src/dvfile.h:66 | a truncating quotient is never larger in magnitude than its dividend |
| MrcHeader.CountOrOne | src/dvfile.h:66 | a zero wave or time count is read as one, so the divisor is never zero |
| MrcHeader.NumPlanesExact | src/dvfile.h:66 | with c > 0 wavelengths, t > 0 time points and nz == c*t*p, the real plane count is exactly p |
| MrcHeader.NumPlanesQuotient | src/dvfile.h:66 | for non-negative counts, the plane count equals nz divided by the product of the zero-guarded counts |
| MrcHeader.ImageType | src/dvfile.h:68-81 | the label is "UNKNOWN" exactly for codes outside {0, 100, 1, 2, 3, 4, 5, 20, 8000}, and "NORMAL" exactly for 0 and 100 |
| Arithmetic.ToSize | src/dvfile.h:155 | the product as `size_t`: the value reduced modulo 2^64, unchanged when it is already in range |
| Arithmetic.ToOffset | src/dvfile.h:158 | a `size_t` read as a signed stream offset: in [-2^63, 2^63) and congruent to the unsigned value modulo 2^64 |
| Bytes.I16AtEncode | src/dvfile.h:41 | a signed 16-bit field written little-endian reads back as the same value |
| Bytes.I32AtEncode | src/dvfile.h:32 | a signed 32-bit field written little-endian reads back as the same value |
| Bytes.F32AtEncode | src/dvfile.h:36 | a float field's 32-bit pattern written little-endian reads back unchanged |
| HeaderCodec.Encode | src/dvfile.h:31-55 | the header's wire form is exactly 1024 bytes long |
| HeaderCodec.Decode | src/dvfile.h:133 | the struct read over the file's first 1024 bytes: each field taken at its fixed offset |
| HeaderCodec.EncodeOffsets | src/dvfile.h:31-55 | in the 1024 bytes `putHeader` writes for a header, nx, ny, nz and mode read back from offsets 0..16, the statistics from 76..88, inbsym from 92, nDVID from 96, file_type from 160, num_times and interleaved from 180 and 182, num_waves from 196, nlab from 220, and the titles are bytes 224..1024 |
| HeaderCodec.DecodeExtentsBlock | src/dvfile.h:32-33 | in an encoded header, nx, ny, nz and `mode` are read back at offsets 0, 4, 8 and 12 |
| HeaderCodec.DecodeTypeBlock | src/dvfile.h:47-48 | in an encoded header, `file_type` is read back at offset 160, followed by lens, n1, n2, v1, v2 and the fifth wavelength's range |
| HeaderCodec.DecodeOriginBlock | src/dvfile.h:53-54 | in an encoded header, the origins are read back at offsets 208..220 and `nlab` at offset 220 |
| HeaderCodec.DecodeEncode | src/dvfile.h:31-55 | decoding the bytes of an encoded header gives back the same header, every field and the title block |
| HeaderCodec.EncodeDecode | src/dvfile.h:31-55 | every 1024-byte block is the encoding of the header decoded from it, so a header read from a file is taken verbatim |
| HeaderCodec.DecodeTimeBlock | src/dvfile.h:49-50 | `num_times` and `interleaved` are read at byte offsets 180 and 182 of the encoding |
| HeaderCodec.DecodeWavelengthBlock | src/dvfile.h:52 | `num_waves` and the five wavelength values are read at byte offsets 196..208 of the encoding |
| HeaderCodec.DecodeIdentityBlock | src/dvfile.h:40-42 | `ispg`, `inbsym`, `nDVID`, `nblank` and `ntst` are read at byte offsets 88..104 of the encoding |
| FileStream.OpenFile | src/dvfile.h:114-117 | an open succeeds exactly when the path is accessible and the mode is one the file buffer accepts; success gives a fresh stream at position 0 (empty under trunc); failure only sets the fail bit |
| FileStream.CloseFile | src/dvfile.h:196 | closing detaches the file and keeps its bytes |
| FileStream.Seek | src/dvfile.h:158 | a healthy stream moves to any non-negative target; otherwise the stream ends up failed and its position is unchanged |
| FileStream.Read | src/dvfile.h:166 | a full read returns the n bytes at the position and advances past them; a short read returns the tail and sets the fail bit; a failed stream delivers nothing |
| FileStream.Overwrite | src/dvfile.h:179 | the written window holds the new bytes; the bytes before and after it are unchanged; a gap past the old end reads as zeros |
| FileStream.Write | src/dvfile.h:179 | a healthy stream overwrites at the position and advances by the length written; otherwise nothing is written and the stream is failed |
| FileStream.ReadBackWrite | src/dvfile.h:166-179 | seeking back to where a write began and reading as many bytes returns exactly the bytes written |
| FileStream.WriteFromStart | src/dvfile.h:211-212 | writing from offset 0 of a healthy stream leaves those bytes at the start of the file and the position just past them |
| DeltaVision.DetectByteOrder | src/dvfile.h:119-129 | A0 C0 means little-endian and C0 A0 means big-endian, both ways; anything else fails as an unrecognised format |
| DeltaVision.EncodedByteOrder | src/dvfile.h:119-129 | a header written little-endian is recognised as little-endian exactly when its `nDVID` is 0xC0A0, and as big-endian exactly when it holds 0xA0C0 |
| DeltaVision.DvidBytes | src/dvfile.h:120-122 | the two-byte read at offset 96 gives bytes 96..98 of a file that is long enough, and fewer than two bytes exactly when the file is shorter than 98 bytes |
| DeltaVision.InitialHeader | src/dvfile.h:132-133 | a file of 1024 bytes or more gives the header decoded from its first 1024 bytes |
| DeltaVision.InitialHeaderEncoded | src/dvfile.h:132-133 | a file whose first 1024 bytes came from `putHeader(h)` is read back as h by the next open |
| DeltaVision.PutHeaderBytes | src/dvfile.h:211-212 | after `seekp(0)` and the header write on a healthy stream, bytes 0..1023 encode the header and the position is 1024 |
| DeltaVision.DVFile.Attach | src/dvfile.h:99-105 | a newly attached object is open and holds the path, stream, byte order and header it was given |
| DeltaVision.DVFile.OpenExisting | src/dvfile.h:112-135 | succeeds exactly when the path opens and bytes 96..97 are a byte-order mark; otherwise fails with the open error or the unrecognised-format error. On success the file is open, the order is recorded, the header is the file's first 1024 bytes taken verbatim (not byte-swapped), and the stream is just past the header |
| DeltaVision.DVFile.CreateNew | src/dvfile.h:137-149 | succeeds exactly when the file can be created; on success the file is empty and open at position 0 with an all-zero header; otherwise it fails with the create error |
| DeltaVision.DVFile.SetCurrentZWT | src/dvfile.h:152-159 | an invalid triple or an unknown pixel type fails with that error and leaves the stream untouched; otherwise the stream seeks to the section position. The `closed` flag is not checked |
| DeltaVision.DVFile.ReadSec | src/dvfile.h:161-167 | a closed file or an unknown pixel type fails and leaves the stream untouched. Otherwise one frame of ny*nx*pixel-size bytes is read: when the frame is all there, the result is the bytes at the old position and the position moves by exactly one frame |
| DeltaVision.DVFile.ReadSecAt | src/dvfile.h:169-172 | positions at (z, w, t), with the arguments given in the order t, w, z, and then reads one frame there; every failure of either step is passed on |
| DeltaVision.DVFile.WriteSection | src/dvfile.h:174-180 | a closed file or an unknown pixel type fails and leaves the stream untouched; otherwise the frame is written at the position, which moves by exactly one frame |
| DeltaVision.DVFile.Open | src/dvfile.h:184-192 | corrected reopen: an open file is left unchanged; a closed one is reattached at position 0 with its bytes on disk when the path is accessible, and otherwise stays closed with the open error |
| DeltaVision.DVFile.OpenAsWritten | src/dvfile.h:184-192 | the reopen as written: a closed file always stays closed and `open()` fails; the reopen sets the stream's failbit and changes nothing else; an open file is left unchanged |
| DeltaVision.ReopenModes | src/dvfile.h:186 | `std::ios::binary` alone is refused by the file buffer, while in-out-binary and in-out-binary-trunc (the constructor and `createNew` modes) are accepted |
| DeltaVision.DVFile.Close | src/dvfile.h:194-201 | afterwards the file is closed; closing a closed file changes nothing; closing an open one only detaches the stream |
| DeltaVision.DVFile.PutHeader | src/dvfile.h:207-214 | a closed file fails and nothing changes. Otherwise the header is kept in memory and its bytes are written from offset 0, so bytes 0..1023 encode it on a healthy stream. The in-memory header is replaced even when the stream had already failed |
| DeltaVision.DVFile.Sizes | src/dvfile.h:218-233 | the map has exactly the keys C, T, Z, Y, X, holding `num_waves`, `num_times`, the real plane count, `ny` and `nx`, whatever the sequence order |
| DeltaVision.AxisPositions | src/dvfile.h:226 | the axis string is five axis letters, with C, T and Z among the first three and Y, X last |
| Sections.FrameSize | src/dvfile.h:155 | the frame size exists exactly when the pixel type is known, and then fits in `size_t` |
| Sections.FrameSizeExact | src/dvfile.h:155 | without `int` overflow, the frame size is ny * nx times the mode's width |
| Sections.ValidateZWT | src/dvfile.h:236-246 | passes exactly when t < num_times, w < num_waves and z < num_planes. The time bound is checked first, then the wavelength bound, then the section bound, each with its own error. Bounds are exclusive and negatives are not rejected |
| Sections.DataStart | src/dvfile.h:156 | `header_size`: 1024 plus the `inbsym` bytes of extended header, where the first section starts |
| Sections.LinearIndex | src/dvfile.h:157 | `section_offset`: the triple's number in file order, which equals the mixed-radix number (t * num_waves + w) * num_planes + z, with time outermost and z innermost |
| Sections.SeekTarget | src/dvfile.h:155-158 | the seek argument is a signed 64-bit value congruent, modulo 2^64, to 1024 + inbsym + index * frame size |
| Sections.SectionPosition | src/dvfile.h:152-159 | a position exists exactly when validation passes and the pixel type is known; otherwise the validation error or the pixel-type error is returned |
| Sections.SectionPositionIgnoresInterleaved | src/dvfile.h:157 | the `interleaved` code never changes where a section is sought |
| Sections.LinearIndexBounds | src/dvfile.h:157 | every in-range triple numbers a section in [0, num_times * num_waves * num_planes) |
| Sections.LinearIndexInjective | src/dvfile.h:157 | distinct in-range triples number distinct sections |
| Sections.SectionsDisjoint | src/dvfile.h:155-158 | the frames of two distinct in-range triples do not overlap |
| Sections.LastSectionEnd | src/dvfile.h:155-158 | the last section ends exactly at 1024 + inbsym + num_waves * num_times * num_planes * frame size |
| Sections.SectionPositionExact | src/dvfile.h:155-158 | when the section data fits a signed 64-bit offset, a valid triple seeks to exactly 1024 + inbsym + index * frame size |
| Sections.SixFrameLayout | src/dvfile.h:155-158 | for 64 x 32 SHORT frames with nz 6, two wavelengths and three time points, there is one real plane, a frame is 4096 bytes, and (z 0, w 1, t 2) is section 5, at 1024 + 5 * 4096 |
| Ive.HandleTable.constructor | src/dvfile.h:254 | the table starts empty |
| Ive.HandleTable.GetDVFile | src/dvfile.h:256-262 | returns the bound object exactly when the identifier is bound, and otherwise fails with "stream not found" for that identifier |
| Ive.HandleTable.OpenByMode | src/dvfile.h:283-300 | "ro" opens an existing file and "new" creates one; it succeeds exactly when that open succeeds; any other mode, and only such a mode, fails with the unknown-file-mode error |
| Ive.HandleTable.IMOpen | src/dvfile.h:274-302 | a prior binding under the identifier is closed and erased first. Returns 0 exactly when the "ro" open or the "new" create succeeds, and then binds a fresh object; otherwise returns 1 and leaves the identifier unbound. No other binding changes |
| Ive.HandleTable.Bind | src/dvfile.h:285 | binds the identifier to the new object and changes no other binding |
| Ive.HandleTable.IMClose | src/dvfile.h:304-307 | the entry is removed and its file closed; an unbound identifier changes nothing |
| Ive.HandleTable.IMGetHdr | src/dvfile.h:309-311 | the bound file's in-memory header, or "stream not found"; the stream is not touched |
| Ive.HandleTable.IMRdHdr | src/dvfile.h:313-327 | the extents, intervals, mode and statistics are those of the bound file's header, or the call fails with "stream not found" |
| Ive.HandleTable.IMPosnZWT | src/dvfile.h:388-398 | an unbound identifier propagates "stream not found". Otherwise the result is 0 when the section position exists, and the file is then sought there. It is 1 when validation or the pixel-type lookup fails, and the file is then untouched. The bound file's path and byte order never change |
| Ive.HandleTable.IMRdSec | src/dvfile.h:416-424 | `readSec` on the bound file, with every failure passed on. The bound file's path and byte order never change |
| Ive.HandleTable.IMWrSec | src/dvfile.h:426-434 | `writeSection` on the bound file, with every failure passed on. The bound file's path and byte order never change |
| Ive.HandleTable.IMPutHdr | src/dvfile.h:444-446 | `putHeader` on the bound file: the header is kept and written from offset 0 unless the file is closed. The bound file's path and byte order never change |
| Ive.HandleTable.IMWrHdr | src/dvfile.h:464-486 | an invalid ntflag fails before anything is written. Otherwise the header with the new statistics and title is put into the file, and a closed file fails without change. The bound file's path and byte order never change |
| Titles.CLength | src/dvfile.h:477-479 | `strlen`: no NUL before the length, and a NUL at it when the string is shorter than its buffer |
| Titles.CStr | src/dvfile.h:477-479 | the C string is a prefix of its buffer with no NUL in it, ending at the first NUL |
| Titles.CLengthAt | src/dvfile.h:477-479 | a NUL at k with none before it fixes the string length at k |
| Titles.StrNCpy | src/dvfile.h:473 | `strncpy`: copies the string but at most n bytes, NUL-fills the rest of the first n bytes and leaves the bytes from n on alone |
| Titles.StrNCpyReadsBack | src/dvfile.h:473 | a string shorter than n is copied with its terminator and reads back unchanged |
| Titles.StrNCpyUnterminated | src/dvfile.h:473 | a string of n bytes or more fills all n bytes, with no terminator among them |
| Titles.RetitledHeader | src/dvfile.h:466-483 | the result exists exactly for ntflag 0 or 1; any other flag is the invalid-ntflag error. The statistics are replaced, every other field is kept, labels 80..800 are unchanged, and the first title is `strncpy`'d from the title (flag 0) or from title + " " + old label (flag 1) |
| Titles.ReplaceTitle | src/dvfile.h:471-473 | with ntflag 0 and a title shorter than 80 bytes, the first label reads as the title |
| Titles.PrependTitle | src/dvfile.h:474-480 | with ntflag 1, when everything fits in 80 bytes, the first label reads as the new title, a space, and the old label |
| Titles.TitleSequence | src/dvfile.h:464-486 | writing "abc" with ntflag 0 and then "xyz" with ntflag 1 leaves "xyz abc" as the first label |
| Scenario.ConcatFrame | src/dvfile.h:174-180 | frames of n bytes written back to back: frame k occupies bytes [k*n, k*n + n) |
| Scenario.AppendAtEnd | src/dvfile.h:179 | writing at the end of the file appends |
| Scenario.CreateWithHeader | src/dvfile.h:444-446 | after IMOpen "new" and IMPutHdr, the file holds exactly the header's 1024 bytes and the header in memory is the one put |
| Scenario.WriteFrames | src/dvfile.h:426-434 | consecutive IMWrSec calls append the frames in order |
| Scenario.WritePhase | src/dvfile.h:426-434 | create, put the header, write the frames and close: the file holds the header followed by the frames |
| Scenario.Reopen | src/dvfile.h:112-135 | reopening that file "ro" gives back the header that was put, with the stream just past it |
| Scenario.SeekAndRead | src/dvfile.h:388-424 | for the fixed triple (z 0, w 1, t 2): IMPosnZWT followed by IMRdSec returns the n bytes stored at that triple's section position `at` |
| Scenario.ReadPhase | src/dvfile.h:388-424 | on the reopened six-frame file, IMGetHdr returns the header that was put and section (0, 1, 2) is bytes 1024 + 5*4096 .. 1024 + 6*4096 |
| Scenario.SixFrameRoundTrip | src/dvfile.h:274-446 | the whole run returns the header that was put, and the sixth frame written as section (z 0, w 1, t 2) |

## Left out

- `print()` and every warning written to standard error, including the warning `IMOpen` prints when it reuses an identifier: these are console output only.
- `IMAlCon`, `IMAlLab`, `IMAlPrt` and `IMRtExHdrZWT` are not modelled: each only prints a warning and changes no state.
- `getPath()`, `isClosed()` and `DVFile::getHeader()` are the fields `path`, `closed` and `hdr`, read directly.
- The `_big_endian` flag is modelled as a field that is recorded and never used. The header is never byte-swapped, which is the behaviour the code has.
- Float fields are kept as 32-bit patterns and never interpreted.
- The host struct layout is fixed as packed and little-endian. `reinterpret_cast` is modelled as the explicit field offsets of `HeaderCodec`.
- Raw buffer capacity is not modelled. A frame is passed as a byte sequence, and `WriteSection` and `IMWrSec` require exactly one frame, as the caller's buffer must hold one.
- MrcHeader.NumPlanes: the C `int` division overflows when nz is -2^31 and a divisor is -1 (for example num_waves == -1). That is undefined behaviour, and on x86 it traps, so `num_planes()`, `_validateZWT`, `setCurrentZWT`, `IMPosnZWT` and `sizes()` would abort. The model returns the mathematical quotient 2^31 instead. DeltaVision.DVFile.Sizes inherits the same case.
- Sections.LinearIndex: C `int` overflow in `header_size` and `section_offset` is not modelled. These are unbounded integers; only the `size_t` wrap of the final sum is modelled.
- Sections.FrameSize: the `int` overflow of `ny * nx` (before the widening to `size_t`) is not modelled. `FrameSizeExact` states the exact value only when there is no overflow.
- DeltaVision.DVFile.ReadSec: a frame size of 2^63 bytes or more does not fit the `std::streamsize` argument of `read`. The model reads the full unsigned count.
- DeltaVision.DvidBytes: a file shorter than 98 bytes leaves `dvid` partly indeterminate. The model treats it as unrecognised; starting from indeterminate memory, the C++ check could in principle pass.
- DeltaVision.InitialHeader: when the file is shorter than 1024 bytes, the header's remaining bytes are what its memory held before the read. They are a parameter (`hdrInit`), not a fixed value.
- The file system is a parameter. `accessible` says whether an open or create can succeed, and `onDisk` gives the file's bytes. Two handles on the same path do not share bytes, and the model has no other processes.
- Ive.HandleTable.IMOpen: the model assumes C++17 evaluation order for `dvfile_map[istream] = ...`, where the right-hand side runs first. A failed open or create therefore leaves no entry. Under older rules an empty entry could be left behind.
- The process-global lifetime of `dvfile_map` and thread safety.
- Titles.RetitledHeader: the title argument is read as a C string. A title array with no NUL among its bytes ends at the sequence's end, where the C++ code would read past its 80 bytes. Likewise, with ntflag 1, `new_title += header.label` reads past the 800-byte label when none of its bytes is NUL; the model stops at the label's end. Any byte read past the label lands at position 801 or later of the joined string, beyond the 80 bytes that are copied, so the header written is the same either way unless the over-read itself faults. The `ntflag == 1` rule, flagged in the source as not the intended "append to the list", is modelled as written.
- Exceptions are modelled as `Err`/`Fail` results with one error value per message. `readSec` and `writeSection` passing the exception on through `IMRdSec`/`IMWrSec` is modelled as returning the same error.

## Findings

| source | as written | input that shows it | evidently intended | confidence | as-written member | corrected member |
|---|---|---|---|---|---|---|
| src/dvfile.h:186 | `open()` reopens with `std::ios::binary` alone, a mode that names neither input nor output, so `basic_filebuf::open` refuses it and `open()` always throws "Failed to open file" | any `DVFile` after `close()`, on a path that is accessible | reopen in input, output and binary mode, as the constructor opens, so that the closed file becomes readable and writable again | not executed | DeltaVision.DVFile.OpenAsWritten | DeltaVision.DVFile.Open |
