/**
 * A DeltaVision file attached to a stream: the in-memory header, the
 * open/closed flag, and the section reads and writes that go through the
 * stream. The file system is a parameter of the operations that open a
 * file: whether the path can be opened, what it holds, and (for a header
 * read short) the bytes the header's memory held before the read.
 */
module DeltaVision {
  import opened Bytes
  import opened Errors
  import opened MrcHeader
  import opened HeaderCodec
  import opened FileStream
  import opened Sections

  datatype ByteOrder = LittleEndian | BigEndian

  /** Where the two `nDVID` bytes live, taken as the byte-order mark. */
  const DvidOffset := 96

  /**
   * The byte-order check on the two bytes read at offset 96: A0 C0 is a
   * file written little-endian, C0 A0 one written big-endian; anything
   * else (including a file too short to hold both bytes) is not a
   * DeltaVision file.
   */
  function DetectByteOrder(dvid: seq<byte>): (r: Result<ByteOrder>)
    ensures r == Ok(LittleEndian) <==> dvid == [0xA0, 0xC0]
    ensures r == Ok(BigEndian) <==> dvid == [0xC0, 0xA0]
    ensures r.Err? <==> dvid != [0xA0, 0xC0] && dvid != [0xC0, 0xA0]
    ensures r.Err? ==> r.error == UnrecognizedFormat
  {
    if dvid == [0xA0, 0xC0] then Ok(LittleEndian)
    else if dvid == [0xC0, 0xA0] then Ok(BigEndian)
    else Err(UnrecognizedFormat)
  }

  /** The `nDVID` value 0xC0A0 as the signed field stores it. */
  const DvMagic: int16 := -16224
  /** The same mark with its bytes swapped: 0xA0C0. */
  const DvMagicSwapped: int16 := -24384

  lemma I16Injective(x: int16, y: int16)
    requires EncodeI16(x) == EncodeI16(y)
    ensures x == y
  {
    var b := EncodeI16(x);
    I16AtEncode(b, 0, x);
    I16AtEncode(b, 0, y);
  }

  /**
   * A header written in this model's (little-endian) byte order is
   * recognised as little-endian exactly when its nDVID is 0xC0A0, and as
   * big-endian exactly when it holds the swapped mark.
   */
  lemma {:induction false} EncodedByteOrder(h: Header)
    ensures DetectByteOrder(Encode(h)[96..98]) == Ok(LittleEndian) <==> h.nDVID == DvMagic
    ensures DetectByteOrder(Encode(h)[96..98]) == Ok(BigEndian) <==> h.nDVID == DvMagicSwapped
  {
    var e := Encode(h);
    DecodeEncode(h);
    EncodeI16At(e, 96);
    assert e[96..98] == EncodeI16(h.nDVID);
    assert EncodeI16(DvMagic) == [0xA0, 0xC0];
    assert EncodeI16(DvMagicSwapped) == [0xC0, 0xA0];
    if e[96..98] == [0xA0, 0xC0] {
      I16Injective(h.nDVID, DvMagic);
    }
    if e[96..98] == [0xC0, 0xA0] {
      I16Injective(h.nDVID, DvMagicSwapped);
    }
  }

  /** The bytes a two-byte read at offset 96 delivers from a file holding `onDisk`. */
  function DvidBytes(onDisk: seq<byte>): (r: seq<byte>)
    ensures |onDisk| >= 98 ==> r == onDisk[96..98]
    ensures |r| < 2 <==> |onDisk| < 98
  {
    Read(Stream(onDisk, DvidOffset, false, true), 2).bytes
  }

  /**
   * The header the constructor reads: the first 1024 bytes of the file,
   * taken as they are. When the file is shorter, the bytes past its end
   * keep what the header's memory held before (`hdrInit`).
   */
  function InitialHeader(onDisk: seq<byte>, hdrInit: seq<byte>): (r: Header)
    requires |hdrInit| == HeaderSize
    ensures |onDisk| >= HeaderSize ==> r == Decode(onDisk[..HeaderSize])
  {
    var got := Read(Stream(onDisk, 0, false, true), HeaderSize).bytes;
    Decode(got + hdrInit[|got|..])
  }

  /** The file starts with the 1024 bytes of h. */
  predicate HeaderWritten(data: seq<byte>, h: Header)
  {
    |data| >= HeaderSize && data[..HeaderSize] == Encode(h)
  }

  /** Writing a header from offset 0 of a healthy stream leaves it readable at the start of the file. */
  lemma {:induction false} PutHeaderBytes(s: Stream, h: Header)
    requires Healthy(s)
    ensures var w := Write(Seek(s, 0), Encode(h));
            HeaderWritten(w.data, h) && w.pos == HeaderSize
  {
    WriteFromStart(s, Encode(h));
  }

  /** A file whose first 1024 bytes encode h is read back as h. */
  lemma {:induction false} InitialHeaderEncoded(onDisk: seq<byte>, hdrInit: seq<byte>, h: Header)
    requires |hdrInit| == HeaderSize && |onDisk| >= HeaderSize && onDisk[..HeaderSize] == Encode(h)
    ensures InitialHeader(onDisk, hdrInit) == h
  {
    DecodeEncode(h);
  }

  class DVFile {
    var path: string
    var file: Stream
    var bigEndian: bool
    var hdr: Header
    var closed: bool

    /** The object's flag agrees with the stream: a closed DVFile has no file attached. */
    predicate Valid()
      reads this
    {
      closed == !file.isOpen
    }

    constructor Attach(path: string, file: Stream, bigEndian: bool, hdr: Header)
      requires file.isOpen
      ensures Valid() && !closed
      ensures this.path == path && this.file == file && this.bigEndian == bigEndian && this.hdr == hdr
    {
      this.path := path;
      this.file := file;
      this.bigEndian := bigEndian;
      this.hdr := hdr;
      this.closed := false;
    }

    /**
     * `DVFile(path)`: open an existing file in `in | out | binary`, check
     * the byte-order mark at offset 96, then read the header from offset 0.
     * The detected order is recorded but the header is not byte-swapped.
     */
    static method OpenExisting(path: string, accessible: bool, onDisk: seq<byte>, hdrInit: seq<byte>)
      returns (r: Result<DVFile>)
      requires |hdrInit| == HeaderSize
      ensures r.Ok? <==> accessible && DetectByteOrder(DvidBytes(onDisk)).Ok?
      ensures !accessible ==> r == Err(OpenFailed)
      ensures accessible && DetectByteOrder(DvidBytes(onDisk)).Err? ==> r == Err(UnrecognizedFormat)
      ensures r.Ok? ==> fresh(r.value) && r.value.Valid() && !r.value.closed && r.value.path == path
      ensures r.Ok? ==> r.value.bigEndian == (DetectByteOrder(DvidBytes(onDisk)) == Ok(BigEndian))
      ensures r.Ok? ==> r.value.hdr == InitialHeader(onDisk, hdrInit)
      ensures r.Ok? ==> r.value.file == Read(Stream(onDisk, 0, false, true), HeaderSize).stream
    {
      var s := OpenFile(Detached, InOutBinary, accessible, onDisk);
      if !s.isOpen {
        return Err(OpenFailed);
      }
      s := Seek(s, DvidOffset);
      var dvid := Read(s, 2);
      var order := DetectByteOrder(dvid.bytes);
      if order.Err? {
        return Err(UnrecognizedFormat);
      }
      s := Seek(dvid.stream, 0);
      var got := Read(s, HeaderSize);
      var f := new DVFile.Attach(path, got.stream, order.value == BigEndian, Decode(got.bytes + hdrInit[|got.bytes|..]));
      return Ok(f);
    }

    /**
     * `createNew(path)`: create (or truncate) the file in
     * `in | out | binary | trunc`. The object is value-initialised, so its
     * header is all zeros until a header is put.
     */
    static method CreateNew(path: string, accessible: bool) returns (r: Result<DVFile>)
      ensures r.Ok? <==> accessible
      ensures !accessible ==> r == Err(CreateFailed)
      ensures r.Ok? ==> fresh(r.value) && r.value.Valid() && !r.value.closed && r.value.path == path
      ensures r.Ok? ==> r.value.hdr == ZeroHeader && !r.value.bigEndian
      ensures r.Ok? ==> r.value.file == Stream([], 0, false, true)
    {
      var s := OpenFile(Detached, InOutBinaryTrunc, accessible, []);
      if !s.isOpen {
        return Err(CreateFailed);
      }
      var f := new DVFile.Attach(path, s, false, ZeroHeader);
      return Ok(f);
    }

    /**
     * `setCurrentZWT(z, w, t)`: on a valid triple with a known pixel type,
     * seek to the section; otherwise fail without touching the stream. The
     * `closed` flag is not consulted, so on a closed file the seek fails.
     */
    method SetCurrentZWT(z: int, w: int, t: int) returns (r: Outcome)
      requires Valid()
      modifies this
      ensures Valid()
      ensures path == old(path) && bigEndian == old(bigEndian) && hdr == old(hdr) && closed == old(closed)
      ensures SectionPosition(hdr, z, w, t).Err? ==> r == Fail(SectionPosition(hdr, z, w, t).error) && file == old(file)
      ensures SectionPosition(hdr, z, w, t).Ok? ==> r == Pass && file == Seek(old(file), SectionPosition(hdr, z, w, t).value)
    {
      var p := SectionPosition(hdr, z, w, t);
      if p.Err? {
        return Fail(p.error);
      }
      file := Seek(file, p.value);
      return Pass;
    }

    /**
     * `readSec(array)`: read one frame at the current position. A closed
     * file or an unknown pixel type fails without touching the stream.
     */
    method ReadSec() returns (r: Result<seq<byte>>)
      requires Valid()
      modifies this
      ensures Valid()
      ensures path == old(path) && bigEndian == old(bigEndian) && hdr == old(hdr) && closed == old(closed)
      ensures closed ==> r == Err(ClosedForRead) && file == old(file)
      ensures !closed && FrameSize(hdr).Err? ==> r == Err(UnknownPixelType) && file == old(file)
      ensures !closed && FrameSize(hdr).Ok? ==> r.Ok? && Transfer(file, r.value) == Read(old(file), FrameSize(hdr).value)
      ensures r.Ok? && Healthy(old(file)) && old(file.pos) + FrameSize(hdr).value <= |file.data| ==>
                file.pos == old(file.pos) + FrameSize(hdr).value
                && r.value == file.data[old(file.pos)..file.pos]
    {
      if closed {
        return Err(ClosedForRead);
      }
      var fs := FrameSize(hdr);
      if fs.Err? {
        return Err(fs.error);
      }
      var got := Read(file, fs.value);
      file := got.stream;
      return Ok(got.bytes);
    }

    /**
     * `readSec(array, t, w, z)`: position at section (t, w, z), which it
     * passes on as `setCurrentZWT(z, w, t)`, then read the frame there.
     */
    method ReadSecAt(t: int, w: int, z: int) returns (r: Result<seq<byte>>)
      requires Valid()
      modifies this
      ensures Valid()
      ensures path == old(path) && bigEndian == old(bigEndian) && hdr == old(hdr) && closed == old(closed)
      ensures SectionPosition(hdr, z, w, t).Err? ==> r == Err(SectionPosition(hdr, z, w, t).error) && file == old(file)
      ensures SectionPosition(hdr, z, w, t).Ok? && closed ==>
                r == Err(ClosedForRead) && file == Seek(old(file), SectionPosition(hdr, z, w, t).value)
      ensures SectionPosition(hdr, z, w, t).Ok? && !closed ==>
                r.Ok? && Transfer(file, r.value) == Read(Seek(old(file), SectionPosition(hdr, z, w, t).value), FrameSize(hdr).value)
    {
      var moved := SetCurrentZWT(z, w, t);
      if moved.Fail? {
        return Err(moved.error);
      }
      r := ReadSec();
    }

    /**
     * `writeSection(array)`: write one frame of exactly frame-size bytes at
     * the current position. A closed file or an unknown pixel type fails
     * without touching the stream.
     */
    method WriteSection(frame: seq<byte>) returns (r: Outcome)
      requires Valid()
      requires FrameSize(hdr).Ok? ==> |frame| == FrameSize(hdr).value
      modifies this
      ensures Valid()
      ensures path == old(path) && bigEndian == old(bigEndian) && hdr == old(hdr) && closed == old(closed)
      ensures closed ==> r == Fail(ClosedForWrite) && file == old(file)
      ensures !closed && FrameSize(hdr).Err? ==> r == Fail(UnknownPixelType) && file == old(file)
      ensures !closed && FrameSize(hdr).Ok? ==> r == Pass && file == Write(old(file), frame)
      ensures r == Pass && Healthy(old(file)) ==>
                file.pos == old(file.pos) + FrameSize(hdr).value && file.data[old(file.pos)..file.pos] == frame
    {
      if closed {
        return Fail(ClosedForWrite);
      }
      var fs := FrameSize(hdr);
      if fs.Err? {
        return Fail(fs.error);
      }
      file := Write(file, frame);
      return Pass;
    }

    /**
     * `open()` with the mode the reopen evidently intends, `in | out |
     * binary`: a closed file is attached again at position 0 with its
     * bytes as they are on disk; an open file is left alone.
     */
    method Open(accessible: bool) returns (r: Outcome)
      requires Valid()
      modifies this
      ensures Valid()
      ensures path == old(path) && bigEndian == old(bigEndian) && hdr == old(hdr)
      ensures !old(closed) ==> r == Pass && file == old(file) && !closed
      ensures old(closed) ==> (r == Pass <==> accessible)
      ensures old(closed) && accessible ==> !closed && file == Stream(old(file.data), 0, false, true)
      ensures old(closed) && !accessible ==> r == Fail(OpenFailed) && closed && file == old(file).(failed := true)
    {
      if closed {
        file := OpenFile(file, InOutBinary, accessible, file.data);
        closed := !file.isOpen;
        return if closed then Fail(OpenFailed) else Pass;
      }
      return Pass;
    }

    /**
     * `open()` as written: the reopen passes `std::ios::binary` alone, a
     * mode no file buffer accepts, so reopening a closed file fails
     * whatever the file system allows.
     */
    method OpenAsWritten(accessible: bool) returns (r: Outcome)
      requires Valid()
      modifies this
      ensures Valid()
      ensures path == old(path) && bigEndian == old(bigEndian) && hdr == old(hdr)
      ensures !old(closed) ==> r == Pass && file == old(file) && !closed
      ensures old(closed) ==> r == Fail(OpenFailed) && closed && file == old(file).(failed := true)
    {
      if closed {
        file := OpenFile(file, BinaryOnly, accessible, file.data);
        closed := !file.isOpen;
        return if closed then Fail(OpenFailed) else Pass;
      }
      return Pass;
    }

    /** `close()`: detach the file once; closing a closed file changes nothing. */
    method Close()
      requires Valid()
      modifies this
      ensures Valid() && closed
      ensures path == old(path) && bigEndian == old(bigEndian) && hdr == old(hdr)
      ensures old(closed) ==> file == old(file)
      ensures !old(closed) ==> file == old(file).(isOpen := false)
    {
      if !closed {
        file := CloseFile(file);
        closed := true;
      }
    }

    /**
     * `putHeader(header)`: write the header's 1024 bytes at offset 0 and
     * keep it as the in-memory header. A stream already failed writes
     * nothing, yet the header is still kept.
     */
    method PutHeader(h: Header) returns (r: Outcome)
      requires Valid()
      modifies this
      ensures Valid()
      ensures path == old(path) && bigEndian == old(bigEndian) && closed == old(closed)
      ensures old(closed) ==> r == Fail(ClosedForWrite) && file == old(file) && hdr == old(hdr)
      ensures !old(closed) ==> r == Pass && hdr == h && file == Write(Seek(old(file), 0), Encode(h))
      ensures !old(closed) && Healthy(old(file)) ==> HeaderWritten(file.data, h) && file.pos == HeaderSize
    {
      if closed {
        return Fail(ClosedForWrite);
      }
      var s := Seek(file, 0);
      file := Write(s, Encode(h));
      hdr := h;
      if Healthy(old(file)) {
        PutHeaderBytes(old(file), h);
      }
      return Pass;
    }

    /**
     * `sizes()`: the size of each axis, keyed by its letter. The keys are
     * visited in sequence order and then Y, X, but the result is a
     * key-ordered map, so it holds the same five entries whatever the
     * `interleaved` code.
     */
    method Sizes() returns (m: map<string, int>)
      ensures m == map["C" := hdr.numWaves as int, "T" := hdr.numTimes as int,
                       "Z" := NumPlanes(hdr), "Y" := hdr.ny as int, "X" := hdr.nx as int]
    {
      var d := map["T" := hdr.numTimes as int, "C" := hdr.numWaves as int,
                   "Z" := NumPlanes(hdr), "Y" := hdr.ny as int, "X" := hdr.nx as int];
      var axes := SequenceOrder(hdr) + "YX";
      var c, t, z := AxisPositions(hdr);
      m := map[];
      var i := 0;
      while i < |axes|
        invariant 0 <= i <= |axes|
        invariant forall k :: k in m ==> k in d && m[k] == d[k]
        invariant forall j :: 0 <= j < i ==> [axes[j]] in m
      {
        var key := [axes[i]];
        m := m[key := d[key]];
        i := i + 1;
      }
      assert [axes[c]] == "C" && [axes[t]] == "T" && [axes[z]] == "Z" && [axes[3]] == "Y" && [axes[4]] == "X";
      assert m.Keys == d.Keys;
    }
  }

  /**
   * The axis string `sequence_order() + "YX"` holds only axis letters, and
   * each of C, T and Z at some position (Y and X close it).
   */
  lemma AxisPositions(h: Header) returns (c: nat, t: nat, z: nat)
    ensures var axes := SequenceOrder(h) + "YX";
            |axes| == 5 && c < 3 && t < 3 && z < 3
            && axes[c] == 'C' && axes[t] == 'T' && axes[z] == 'Z' && axes[3] == 'Y' && axes[4] == 'X'
            && forall j :: 0 <= j < 5 ==> axes[j] in {'C', 'T', 'Z', 'Y', 'X'}
  {
    if h.interleaved == 1 {
      c, t, z := 2, 0, 1;
    } else if h.interleaved == 2 {
      c, t, z := 1, 0, 2;
    } else {
      c, t, z := 0, 1, 2;
    }
  }

  /** `std::ios::binary` alone: the mode the reopen in `open()` passes. */
  const BinaryOnly: OpenMode := OpenMode(false, false, false, false, true)

  /**
   * The reopen mode as written names neither input, output nor append, so
   * the file buffer refuses it for every file; `in | out | binary` is
   * accepted.
   */
  lemma ReopenModes()
    ensures !FileBufAccepts(BinaryOnly)
    ensures FileBufAccepts(InOutBinary) && FileBufAccepts(InOutBinaryTrunc)
  {
  }
}
