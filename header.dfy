/**
 * The IW_MRC_Header record: the 1024-byte header of a DeltaVision file, and
 * the three values the source derives from it (axis sequence, real plane
 * count, image-type label). The byte layout lives in module HeaderCodec.
 */
module MrcHeader {
  import opened Bytes
  import opened Arithmetic

  /** The 24 reserved bytes at offset 104. */
  type Reserved = s: seq<byte> | |s| == 24 witness seq(24, i => 0)
  /** The 800-byte title block at offset 224: ten fixed-width titles of 80 bytes. */
  type Labels = s: seq<byte> | |s| == 800 witness seq(800, i => 0)

  /**
   * One field per struct member, in struct order; the comment gives each
   * group's byte offset. nz counts every stored plane: real planes times
   * wavelengths times time points.
   */
  datatype Header = Header(
    nx: int32, ny: int32, nz: int32,                       // 0
    mode: int32,                                           // 12
    nxst: int32, nyst: int32, nzst: int32,                 // 16
    mx: int32, my: int32, mz: int32,                       // 28
    xlen: float32, ylen: float32, zlen: float32,           // 40
    alpha: float32, beta: float32, gamma: float32,         // 52
    mapc: int32, mapr: int32, maps: int32,                 // 64
    amin: float32, amax: float32, amean: float32,          // 76
    ispg: int32, inbsym: int32,                            // 88
    nDVID: int16, nblank: int16,                           // 96
    ntst: int32,                                           // 100
    ibyte: Reserved,                                       // 104
    nint: int16, nreal: int16, nres: int16, nzfact: int16, // 128
    min2: float32, max2: float32, min3: float32,           // 136
    max3: float32, min4: float32, max4: float32,           // 148
    fileType: int16, lens: int16,                          // 160
    n1: int16, n2: int16, v1: int16, v2: int16,            // 164
    min5: float32, max5: float32,                          // 172
    numTimes: int16, interleaved: int16,                   // 180
    tiltX: float32, tiltY: float32, tiltZ: float32,        // 184
    numWaves: int16,                                       // 196
    iwav1: int16, iwav2: int16, iwav3: int16,              // 198
    iwav4: int16, iwav5: int16,                            // 204
    zorig: float32, xorig: float32, yorig: float32,        // 208
    nlab: int32,                                           // 220
    labels: Labels)                                        // 224

  /** The header a value-initialised DVFile holds: every byte zero. */
  const ZeroHeader: Header := Header(
    0, 0, 0, 0, 0, 0, 0, 0, 0, 0, 0, 0, 0, 0, 0, 0, 0, 0, 0, 0, 0, 0, 0, 0,
    0, 0, 0, seq(24, i => 0), 0, 0, 0, 0, 0, 0, 0, 0, 0, 0,
    0, 0, 0, 0, 0, 0, 0, 0, 0, 0, 0, 0, 0,
    0, 0, 0, 0, 0, 0, 0, 0, 0, 0, seq(800, i => 0))

  // ---------------------------------------------------------------------
  // Axis sequence

  /** sequence_order(): 0 is ZTW ("CTZ"), 1 is WZT ("TZC"), 2 is ZWT ("TCZ"); any other code falls back to "CTZ". */
  function SequenceOrder(h: Header): (r: string)
    ensures |r| == 3 && multiset(r) == multiset("CTZ")
    ensures r == "TZC" <==> h.interleaved == 1
    ensures r == "TCZ" <==> h.interleaved == 2
    ensures r == "CTZ" <==> h.interleaved != 1 && h.interleaved != 2
  {
    match h.interleaved
    case 0 => "CTZ"
    case 1 => "TZC"
    case 2 => "TCZ"
    case _ => "CTZ"
  }

  // ---------------------------------------------------------------------
  // Real plane count

  /** `count ? count : 1`: a zero count is read as one, never divided by. */
  function CountOrOne(count: int): (d: int)
    ensures d != 0
  {
    if count != 0 then count else 1
  }

  /** num_planes(): the real z-plane count, nz / waves / times, each zero count read as one. */
  function NumPlanes(h: Header): (p: int)
    ensures Abs(p) <= Abs(h.nz)
    ensures h.nz >= 0 && h.numWaves >= 0 && h.numTimes >= 0 ==> p >= 0
  {
    var q := TruncDiv(h.nz, CountOrOne(h.numWaves));
    QuotientShrinks(h.nz, CountOrOne(h.numWaves));
    QuotientShrinks(q, CountOrOne(h.numTimes));
    TruncDiv(q, CountOrOne(h.numTimes))
  }

  /**
   * With c > 0 wavelengths and t > 0 time points over nz == c*t*p stored
   * planes, the real plane count is exactly p.
   */
  lemma {:induction false} NumPlanesExact(h: Header, p: int)
    requires h.numWaves > 0 && h.numTimes > 0
    requires h.nz == h.numWaves * h.numTimes * p
    ensures NumPlanes(h) == p
  {
    var c, t := h.numWaves as int, h.numTimes as int;
    assert h.nz == (t * p) * c;
    TruncDivExact(t * p, c);
    assert t * p == p * t;
    TruncDivExact(p, t);
  }

  /**
   * For non-negative counts the plane count is nz divided by the product of
   * the counts, a zero count standing for one.
   */
  lemma {:induction false} NumPlanesQuotient(h: Header)
    requires h.nz >= 0 && h.numWaves >= 0 && h.numTimes >= 0
    ensures NumPlanes(h) == h.nz / (CountOrOne(h.numWaves) * CountOrOne(h.numTimes))
  {
    var c, t := CountOrOne(h.numWaves), CountOrOne(h.numTimes);
    assert TruncDiv(h.nz, c) == h.nz / c;
    DivDiv(h.nz, c, t);
  }

  // ---------------------------------------------------------------------
  // Image-type label

  const KnownFileTypes: set<int> := {0, 100, 1, 2, 3, 4, 5, 20, 8000}

  /** image_type(): the label of the acquisition type; an unlisted code is "UNKNOWN". */
  function ImageType(h: Header): (r: string)
    ensures r == "UNKNOWN" <==> h.fileType !in KnownFileTypes
    ensures r == "NORMAL" <==> h.fileType == 0 || h.fileType == 100
  {
    match h.fileType
    case 0 => "NORMAL"
    case 100 => "NORMAL"
    case 1 => "TILT_SERIES"
    case 2 => "STEREO_TILT_SERIES"
    case 3 => "AVERAGED_IMAGES"
    case 4 => "AVERAGED_STEREO_PAIRS"
    case 5 => "EM_TILT_SERIES"
    case 20 => "MULTIPOSITION"
    case 8000 => "PUPIL_FUNCTION"
    case _ => "UNKNOWN"
  }
}
