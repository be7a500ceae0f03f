/**
 * The IVE-style stream API: small integer stream identifiers bound to open
 * DeltaVision files in one table. Each entry owns its file object; erasing
 * an entry destroys the object, whose destructor closes the file.
 */
module Ive {
  import opened Bytes
  import opened Errors
  import opened MrcHeader
  import opened HeaderCodec
  import opened FileStream
  import opened Sections
  import opened Titles
  import opened DeltaVision

  /** The values `IMRdHdr` hands back through its out-parameters. */
  datatype HeaderSummary = HeaderSummary(
    ixyz: (int, int, int), mxyz: (int, int, int), imode: int,
    min: float32, max: float32, mean: float32)

  /**
   * What a successful attach leaves: an open file on the path; opened with
   * "ro" it holds the header read from the file and stands just past it,
   * created with "new" it is empty and its header is all zeros.
   */
  predicate OpenedAs(f: DVFile, name: string, attrib: string, onDisk: seq<byte>, hdrInit: seq<byte>)
    requires |hdrInit| == HeaderSize
    reads f
  {
    !f.closed && f.path == name
    && (attrib == "ro" ==> (f.hdr == InitialHeader(onDisk, hdrInit)
                            && f.file == Read(Stream(onDisk, 0, false, true), HeaderSize).stream))
    && (attrib == "new" ==> f.hdr == ZeroHeader && f.file == Stream([], 0, false, true))
  }

  class HandleTable {
    var files: map<int, DVFile>

    /** Every entry owns its own file object, and each object is consistent. */
    predicate Valid()
      reads this, files.Values
    {
      (forall i, j :: i in files && j in files && i != j ==> files[i] != files[j])
      && forall i :: i in files ==> files[i].Valid()
    }

    constructor ()
      ensures Valid() && files == map[]
    {
      files := map[];
    }

    /** `getDVFile`: the file bound to an identifier, or "Stream not found". */
    function GetDVFile(istream: int): (r: Result<DVFile>)
      reads this
      ensures r.Ok? <==> istream in files
      ensures r.Ok? ==> r.value == files[istream]
      ensures r.Err? ==> r.error == StreamNotFound(istream)
    {
      if istream in files then Ok(files[istream]) else Err(StreamNotFound(istream))
    }

    /** The file bound to an identifier, as a set for frames: empty when there is none. */
    function Bound(istream: int): set<DVFile>
      reads this
    {
      if istream in files then {files[istream]} else {}
    }

    /**
     * The attach step of `IMOpen`: "ro" opens an existing file, "new"
     * creates one, and any other mode is refused ("Unknown file mode").
     */
    static method OpenByMode(name: string, attrib: string, accessible: bool, onDisk: seq<byte>, hdrInit: seq<byte>)
      returns (r: Result<DVFile>)
      requires |hdrInit| == HeaderSize
      ensures r.Ok? <==> ((attrib == "ro" && accessible && DetectByteOrder(DvidBytes(onDisk)).Ok?)
                          || (attrib == "new" && accessible))
      ensures r == Err(UnknownFileMode) <==> attrib != "ro" && attrib != "new"
      ensures r.Ok? ==> fresh(r.value) && r.value.Valid() && OpenedAs(r.value, name, attrib, onDisk, hdrInit)
    {
      if attrib == "ro" {
        r := DVFile.OpenExisting(name, accessible, onDisk, hdrInit);
      } else if attrib == "new" {
        r := DVFile.CreateNew(name, accessible);
      } else {
        r := Err(UnknownFileMode);
      }
    }

    /**
     * `IMOpen(istream, name, attrib)`: a binding already under the
     * identifier is closed and erased first. "ro" opens an existing file,
     * "new" creates one; any other mode, or a failed open, returns 1 and
     * leaves the identifier unbound. Success binds a new file and returns 0.
     */
    method IMOpen(istream: int, name: string, attrib: string, accessible: bool, onDisk: seq<byte>, hdrInit: seq<byte>)
      returns (r: int)
      requires Valid() && |hdrInit| == HeaderSize
      modifies this, Bound(istream)
      ensures Valid()
      ensures r == 0 || r == 1
      ensures r == 0 <==> (attrib == "ro" && accessible && DetectByteOrder(DvidBytes(onDisk)).Ok?)
                          || (attrib == "new" && accessible)
      ensures istream in old(files) ==> old(files[istream]).closed
      ensures r == 1 ==> files == old(files) - {istream}
      ensures r == 0 ==> istream in files && files == old(files)[istream := files[istream]]
      ensures r == 0 ==> fresh(files[istream]) && OpenedAs(files[istream], name, attrib, onDisk, hdrInit)
    {
      IMClose(istream);
      var attached := OpenByMode(name, attrib, accessible, onDisk, hdrInit);
      if attached.Err? {
        return 1;
      }
      Bind(istream, attached.value);
      return 0;
    }

    /** Bind an unbound identifier to a file object no entry owns yet. */
    method Bind(istream: int, f: DVFile)
      requires Valid() && f.Valid() && istream !in files && f !in files.Values
      modifies this
      ensures Valid()
      ensures files == old(files)[istream := f]
    {
      files := files[istream := f];
    }

    /** `IMClose(istream)`: erase the binding, which closes its file; an unbound identifier is ignored. */
    method IMClose(istream: int)
      requires Valid()
      modifies this, Bound(istream)
      ensures Valid()
      ensures files == old(files) - {istream}
      ensures istream in old(files) ==> old(files[istream]).closed
    {
      if istream in files {
        files[istream].Close();
      }
      files := files - {istream};
    }

    /** `IMGetHdr`: a copy of the bound file's in-memory header; the stream is not touched. */
    function IMGetHdr(istream: int): (r: Result<Header>)
      reads this, Bound(istream)
      ensures r.Ok? <==> istream in files
      ensures r.Ok? ==> r.value == files[istream].hdr
      ensures r.Err? ==> r.error == StreamNotFound(istream)
    {
      if istream in files then Ok(files[istream].hdr) else Err(StreamNotFound(istream))
    }

    /** `IMRdHdr`: the extents, sampling, pixel mode and intensity statistics of the bound file's header. */
    function IMRdHdr(istream: int): (r: Result<HeaderSummary>)
      reads this, Bound(istream)
      ensures r.Ok? <==> istream in files
      ensures r.Err? ==> r.error == StreamNotFound(istream)
      ensures r.Ok? ==> var h := files[istream].hdr;
                r.value.ixyz == (h.nx as int, h.ny as int, h.nz as int)
                && r.value.mxyz == (h.mx as int, h.my as int, h.mz as int)
                && r.value.imode == h.mode
                && r.value.min == h.amin && r.value.max == h.amax && r.value.mean == h.amean
    {
      match IMGetHdr(istream)
      case Err(e) => Err(e)
      case Ok(h) => Ok(HeaderSummary((h.nx, h.ny, h.nz), (h.mx, h.my, h.mz), h.mode, h.amin, h.amax, h.amean))
    }

    /**
     * `IMPosnZWT(istream, iz, iw, it)`: an unbound identifier is an error
     * that propagates; otherwise 0 when the file was positioned at the
     * section and 1 when validation or the pixel-size lookup failed.
     */
    method IMPosnZWT(istream: int, iz: int, iw: int, it: int) returns (r: Result<int>)
      requires Valid()
      modifies Bound(istream)
      ensures Valid()
      ensures istream !in files ==> r == Err(StreamNotFound(istream))
      ensures istream in files ==> var f := files[istream]; var p := SectionPosition(f.hdr, iz, iw, it);
                f.path == old(f.path) && f.bigEndian == old(f.bigEndian) &&
                r == Ok(if p.Ok? then 0 else 1)
                && f.file == (if p.Ok? then Seek(old(f.file), p.value) else old(f.file))
                && f.hdr == old(f.hdr) && f.closed == old(f.closed)
    {
      if istream !in files {
        return Err(StreamNotFound(istream));
      }
      var moved := files[istream].SetCurrentZWT(iz, iw, it);
      return Ok(if moved.Pass? then 0 else 1);
    }

    /** `IMRdSec(istream)`: read the frame at the bound file's position; every failure propagates. */
    method IMRdSec(istream: int) returns (r: Result<seq<byte>>)
      requires Valid()
      modifies Bound(istream)
      ensures Valid()
      ensures istream !in files ==> r == Err(StreamNotFound(istream))
      ensures istream in files ==> var f := files[istream];
                f.path == old(f.path) && f.bigEndian == old(f.bigEndian) &&
                f.hdr == old(f.hdr) && f.closed == old(f.closed)
                && (f.closed ==> r == Err(ClosedForRead) && f.file == old(f.file))
                && (!f.closed && FrameSize(f.hdr).Err? ==> r == Err(UnknownPixelType) && f.file == old(f.file))
                && (!f.closed && FrameSize(f.hdr).Ok? ==>
                      r.Ok? && Transfer(f.file, r.value) == Read(old(f.file), FrameSize(f.hdr).value))
    {
      if istream !in files {
        return Err(StreamNotFound(istream));
      }
      r := files[istream].ReadSec();
    }

    /** `IMWrSec(istream, array)`: write one frame at the bound file's position; every failure propagates. */
    method IMWrSec(istream: int, frame: seq<byte>) returns (r: Outcome)
      requires Valid()
      requires istream in files && FrameSize(files[istream].hdr).Ok? ==> |frame| == FrameSize(files[istream].hdr).value
      modifies Bound(istream)
      ensures Valid()
      ensures istream !in files ==> r == Fail(StreamNotFound(istream))
      ensures istream in files ==> var f := files[istream];
                f.path == old(f.path) && f.bigEndian == old(f.bigEndian) &&
                f.hdr == old(f.hdr) && f.closed == old(f.closed)
                && (f.closed ==> r == Fail(ClosedForWrite) && f.file == old(f.file))
                && (!f.closed && FrameSize(f.hdr).Err? ==> r == Fail(UnknownPixelType) && f.file == old(f.file))
                && (!f.closed && FrameSize(f.hdr).Ok? ==> r == Pass && f.file == Write(old(f.file), frame))
    {
      if istream !in files {
        return Fail(StreamNotFound(istream));
      }
      r := files[istream].WriteSection(frame);
    }

    /** `IMPutHdr(istream, header)`: put a whole header into the bound file. */
    method IMPutHdr(istream: int, h: Header) returns (r: Outcome)
      requires Valid()
      modifies Bound(istream)
      ensures Valid()
      ensures istream !in files ==> r == Fail(StreamNotFound(istream))
      ensures istream in files ==> var f := files[istream];
                f.path == old(f.path) && f.bigEndian == old(f.bigEndian) &&
                f.closed == old(f.closed)
                && (old(f.closed) ==> r == Fail(ClosedForWrite) && f.file == old(f.file) && f.hdr == old(f.hdr))
                && (!old(f.closed) ==> r == Pass && f.hdr == h && f.file == Write(Seek(old(f.file), 0), Encode(h)))
    {
      if istream !in files {
        return Fail(StreamNotFound(istream));
      }
      r := files[istream].PutHeader(h);
    }

    /**
     * `IMWrHdr(istream, title, ntflag, dmin, dmax, dmean)`: build the header
     * with the new statistics and title (an invalid ntflag fails before
     * anything is written) and put it into the bound file.
     */
    method IMWrHdr(istream: int, title: seq<byte>, ntflag: int, dmin: float32, dmax: float32, dmean: float32)
      returns (r: Outcome)
      requires Valid()
      modifies Bound(istream)
      ensures Valid()
      ensures istream !in files ==> r == Fail(StreamNotFound(istream))
      ensures istream in files ==> var f := files[istream];
                f.path == old(f.path) && f.bigEndian == old(f.bigEndian) &&
                var nh := RetitledHeader(old(f.hdr), title, ntflag, dmin, dmax, dmean);
                f.closed == old(f.closed)
                && (nh.Err? ==> r == Fail(nh.error) && f.file == old(f.file) && f.hdr == old(f.hdr))
                && (nh.Ok? && old(f.closed) ==> r == Fail(ClosedForWrite) && f.file == old(f.file) && f.hdr == old(f.hdr))
                && (nh.Ok? && !old(f.closed) ==>
                      r == Pass && f.hdr == nh.value && f.file == Write(Seek(old(f.file), 0), Encode(nh.value)))
    {
      if istream !in files {
        return Fail(StreamNotFound(istream));
      }
      var f := files[istream];
      var nh := RetitledHeader(f.hdr, title, ntflag, dmin, dmax, dmean);
      if nh.Err? {
        return Fail(nh.error);
      }
      r := f.PutHeader(nh.value);
    }
  }
}
