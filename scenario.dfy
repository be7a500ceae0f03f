/**
 * One run through the stream API from end to end: create a file, put a
 * header describing six 64 x 32 frames of 16-bit samples (two wavelengths,
 * three time points), write the frames in order, close it, open it again
 * read-only, and read section (z 0, w 1, t 2) back.
 */
module Scenario {
  import opened Bytes
  import opened Errors
  import opened PixelTypes
  import opened MrcHeader
  import opened HeaderCodec
  import opened FileStream
  import opened Sections
  import opened DeltaVision
  import opened Ive

  /** Frames written one after another. */
  function Concat(frames: seq<seq<byte>>): seq<byte>
  {
    if frames == [] then [] else Concat(frames[..|frames| - 1]) + frames[|frames| - 1]
  }

  /** Frames of n bytes each lie back to back: frame k occupies [k*n, k*n + n). */
  lemma {:induction false} ConcatFrame(frames: seq<seq<byte>>, n: nat, k: nat)
    requires forall i :: 0 <= i < |frames| ==> |frames[i]| == n
    requires k < |frames|
    ensures |Concat(frames)| == |frames| * n
    ensures k * n + n <= |Concat(frames)|
    ensures Concat(frames)[k * n..k * n + n] == frames[k]
  {
    var init := frames[..|frames| - 1];
    ConcatLength(init, n);
    if k < |frames| - 1 {
      ConcatFrame(init, n, k);
    }
  }

  lemma {:induction false} ConcatLength(frames: seq<seq<byte>>, n: nat)
    requires forall i :: 0 <= i < |frames| ==> |frames[i]| == n
    ensures |Concat(frames)| == |frames| * n
  {
    if frames != [] {
      ConcatLength(frames[..|frames| - 1], n);
    }
  }

  /** Writing at the end of the file appends. */
  lemma AppendAtEnd(d: seq<byte>, b: seq<byte>)
    ensures Overwrite(d, |d|, b) == d + b
  {
    var r := Overwrite(d, |d|, b);
    assert r[..|d|] == d;
    assert r == r[..|d|] + r[|d|..|d| + |b|];
  }

  /** The header of the scenario: the fields the layout depends on, and the little-endian mark. */
  predicate SixFrameHeader(h: Header)
  {
    h.nx == 64 && h.ny == 32 && h.nz == 6 && h.numWaves == 2 && h.numTimes == 3
    && h.mode == ModeShort && h.inbsym == 0 && h.nDVID == DvMagic
  }

  /** Bind stream 1 to a new file and put h into it: the file then holds exactly the header. */
  method CreateWithHeader(table: HandleTable, h: Header, hdrInit: seq<byte>) returns (f: DVFile)
    requires table.Valid() && table.files == map[] && |hdrInit| == HeaderSize
    modifies table
    ensures table.Valid() && table.files == map[1 := f] && fresh(f)
    ensures !f.closed && f.hdr == h && Healthy(f.file)
    ensures f.file.data == Encode(h) && f.file.pos == HeaderSize
  {
    var created := table.IMOpen(1, "six.dv", "new", true, [], hdrInit);
    f := table.files[1];
    var put := table.IMPutHdr(1, h);
    AppendAtEnd([], Encode(h));
  }

  /** Write the frames one after another from the end of the file on stream 1. */
  method WriteFrames(table: HandleTable, f: DVFile, frames: seq<seq<byte>>)
    requires table.Valid() && table.files == map[1 := f]
    requires !f.closed && Healthy(f.file) && f.file.pos == |f.file.data|
    requires FrameSize(f.hdr).Ok? && forall i :: 0 <= i < |frames| ==> |frames[i]| == FrameSize(f.hdr).value
    modifies f
    ensures table.Valid() && table.files == map[1 := f]
    ensures !f.closed && f.hdr == old(f.hdr) && Healthy(f.file)
    ensures f.file.data == old(f.file.data) + Concat(frames) && f.file.pos == |f.file.data|
  {
    var i := 0;
    assert frames[..0] == [];
    while i < |frames|
      invariant 0 <= i <= |frames|
      invariant table.Valid() && table.files == map[1 := f]
      invariant !f.closed && f.hdr == old(f.hdr) && Healthy(f.file)
      invariant f.file.data == old(f.file.data) + Concat(frames[..i]) && f.file.pos == |f.file.data|
    {
      var before := f.file.data;
      var wrote := table.IMWrSec(1, frames[i]);
      AppendAtEnd(before, frames[i]);
      assert frames[..i + 1][..i] == frames[..i];
      i := i + 1;
    }
    assert frames[..|frames|] == frames;
  }

  /** Create the file on stream 1, put h, write the frames and close it: what is left on disk. */
  method WritePhase(table: HandleTable, h: Header, frames: seq<seq<byte>>, hdrInit: seq<byte>)
    returns (written: seq<byte>)
    requires table.Valid() && table.files == map[] && |hdrInit| == HeaderSize
    requires FrameSize(h).Ok? && forall i :: 0 <= i < |frames| ==> |frames[i]| == FrameSize(h).value
    modifies table
    ensures table.Valid() && table.files == map[]
    ensures written == Encode(h) + Concat(frames)
  {
    var f := CreateWithHeader(table, h, hdrInit);
    WriteFrames(table, f, frames);
    written := f.file.data;
    table.IMClose(1);
  }

  /** Open what was written read-only on stream 1: the header read is h, the file stands just past it. */
  method Reopen(table: HandleTable, h: Header, written: seq<byte>, hdrInit: seq<byte>) returns (f: DVFile)
    requires table.Valid() && table.files == map[] && |hdrInit| == HeaderSize
    requires h.nDVID == DvMagic && |written| >= HeaderSize && written[..HeaderSize] == Encode(h)
    modifies table
    ensures table.Valid() && table.files == map[1 := f] && fresh(f)
    ensures !f.closed && f.hdr == h && f.file == Stream(written, HeaderSize, false, true)
  {
    EncodedByteOrder(h);
    assert DvidBytes(written) == Encode(h)[96..98];
    InitialHeaderEncoded(written, hdrInit, h);
    var reopened := table.IMOpen(1, "six.dv", "ro", true, written, hdrInit);
    f := table.files[1];
  }

  /** Position stream 1 at the section stored at `at` and read one frame of n bytes from there. */
  method SeekAndRead(table: HandleTable, f: DVFile, at: nat, n: nat) returns (section: Result<seq<byte>>)
    requires table.Valid() && table.files == map[1 := f]
    requires !f.closed && Healthy(f.file) && at + n <= |f.file.data|
    requires SectionPosition(f.hdr, 0, 1, 2) == Ok(at) && FrameSize(f.hdr) == Ok(n)
    modifies f
    ensures section == Ok(old(f.file.data)[at..at + n])
  {
    var moved := table.IMPosnZWT(1, 0, 1, 2);
    section := table.IMRdSec(1);
  }

  /** Open what was written read-only on stream 1, take its header and read section (0, 1, 2). */
  method ReadPhase(table: HandleTable, h: Header, written: seq<byte>, hdrInit: seq<byte>)
    returns (header: Result<Header>, section: Result<seq<byte>>)
    requires table.Valid() && table.files == map[] && |hdrInit| == HeaderSize
    requires SixFrameHeader(h)
    requires |written| >= 1024 + 6 * 4096 && written[..HeaderSize] == Encode(h)
    modifies table
    ensures header == Ok(h)
    ensures section == Ok(written[1024 + 5 * 4096..1024 + 6 * 4096])
  {
    SixFrameLayout(h);
    var f := Reopen(table, h, written, hdrInit);
    header := table.IMGetHdr(1);
    section := SeekAndRead(table, f, 1024 + 5 * 4096, 4096);
  }

  /**
   * The whole run: the header read back after reopening is the one put,
   * and section (z 0, w 1, t 2) is the sixth frame written.
   */
  method SixFrameRoundTrip(h: Header, frames: seq<seq<byte>>, hdrInit: seq<byte>)
    returns (header: Result<Header>, section: Result<seq<byte>>)
    requires SixFrameHeader(h)
    requires |frames| == 6 && forall i :: 0 <= i < 6 ==> |frames[i]| == 4096
    requires |hdrInit| == HeaderSize
    ensures header == Ok(h)
    ensures section == Ok(frames[5])
  {
    SixFrameLayout(h);
    var table := new HandleTable();
    var written := WritePhase(table, h, frames, hdrInit);
    ConcatFrame(frames, 4096, 5);
    assert written[..HeaderSize] == Encode(h);
    assert written[1024 + 5 * 4096..1024 + 6 * 4096] == Concat(frames)[5 * 4096..6 * 4096];
    header, section := ReadPhase(table, h, written, hdrInit);
  }
}
