/**
 * The 1024-byte wire form of the header: the struct's members packed in
 * declaration order with no padding, every integer and float in
 * little-endian order. Encode is what putHeader writes; Decode is how the
 * first 1024 bytes of a file are read into the struct. The encoding is
 * assembled from eleven runs of fixed-width fields and the title block.
 */
module HeaderCodec {
  import opened Bytes
  import opened MrcHeader

  const HeaderSize := 1024

  /** Bytes 0 .. 16: nx .. mode: extents and pixel type. */
  function ExtentsBlock(h: Header): (r: seq<byte>)
    ensures |r| == 16
  {
    EncodeI32(h.nx) +
    EncodeI32(h.ny) +
    EncodeI32(h.nz) +
    EncodeI32(h.mode)
  }

  /** Bytes 16 .. 40: nxst .. mz: start indices and sampling intervals. */
  function IntervalsBlock(h: Header): (r: seq<byte>)
    ensures |r| == 24
  {
    EncodeI32(h.nxst) +
    EncodeI32(h.nyst) +
    EncodeI32(h.nzst) +
    EncodeI32(h.mx) +
    EncodeI32(h.my) +
    EncodeI32(h.mz)
  }

  /** Bytes 40 .. 64: xlen .. gamma: pixel spacing and cell angles. */
  function SpacingBlock(h: Header): (r: seq<byte>)
    ensures |r| == 24
  {
    EncodeF32(h.xlen) +
    EncodeF32(h.ylen) +
    EncodeF32(h.zlen) +
    EncodeF32(h.alpha) +
    EncodeF32(h.beta) +
    EncodeF32(h.gamma)
  }

  /** Bytes 64 .. 88: mapc .. amean: axis mapping and intensity statistics. */
  function StatisticsBlock(h: Header): (r: seq<byte>)
    ensures |r| == 24
  {
    EncodeI32(h.mapc) +
    EncodeI32(h.mapr) +
    EncodeI32(h.maps) +
    EncodeF32(h.amin) +
    EncodeF32(h.amax) +
    EncodeF32(h.amean)
  }

  /** Bytes 88 .. 128: ispg .. ibyte: space group, extended-header size, DV ID, start time, reserved bytes. */
  function IdentityBlock(h: Header): (r: seq<byte>)
    ensures |r| == 40
  {
    EncodeI32(h.ispg) +
    EncodeI32(h.inbsym) +
    EncodeI16(h.nDVID) +
    EncodeI16(h.nblank) +
    EncodeI32(h.ntst) +
    h.ibyte
  }

  /** Bytes 128 .. 136: nint .. nzfact: extended-header descriptors. */
  function ExtendedBlock(h: Header): (r: seq<byte>)
    ensures |r| == 8
  {
    EncodeI16(h.nint) +
    EncodeI16(h.nreal) +
    EncodeI16(h.nres) +
    EncodeI16(h.nzfact)
  }

  /** Bytes 136 .. 160: min2 .. max4: intensity ranges of the 2nd to 4th wavelengths. */
  function RangesBlock(h: Header): (r: seq<byte>)
    ensures |r| == 24
  {
    EncodeF32(h.min2) +
    EncodeF32(h.max2) +
    EncodeF32(h.min3) +
    EncodeF32(h.max3) +
    EncodeF32(h.min4) +
    EncodeF32(h.max4)
  }

  /** Bytes 160 .. 180: fileType .. max5: file type, lens, n1, n2, v1, v2 and the 5th wavelength range. */
  function TypeBlock(h: Header): (r: seq<byte>)
    ensures |r| == 20
  {
    EncodeI16(h.fileType) +
    EncodeI16(h.lens) +
    EncodeI16(h.n1) +
    EncodeI16(h.n2) +
    EncodeI16(h.v1) +
    EncodeI16(h.v2) +
    EncodeF32(h.min5) +
    EncodeF32(h.max5)
  }

  /** Bytes 180 .. 196: numTimes .. tiltZ: time points, interleaving and tilt angles. */
  function TimeBlock(h: Header): (r: seq<byte>)
    ensures |r| == 16
  {
    EncodeI16(h.numTimes) +
    EncodeI16(h.interleaved) +
    EncodeF32(h.tiltX) +
    EncodeF32(h.tiltY) +
    EncodeF32(h.tiltZ)
  }

  /** Bytes 196 .. 208: numWaves .. iwav5: wavelength count and wavelengths. */
  function WavelengthBlock(h: Header): (r: seq<byte>)
    ensures |r| == 12
  {
    EncodeI16(h.numWaves) +
    EncodeI16(h.iwav1) +
    EncodeI16(h.iwav2) +
    EncodeI16(h.iwav3) +
    EncodeI16(h.iwav4) +
    EncodeI16(h.iwav5)
  }

  /** Bytes 208 .. 224: zorig .. nlab: origins and title count. */
  function OriginBlock(h: Header): (r: seq<byte>)
    ensures |r| == 16
  {
    EncodeF32(h.zorig) +
    EncodeF32(h.xorig) +
    EncodeF32(h.yorig) +
    EncodeI32(h.nlab)
  }

  function Encode(h: Header): (r: seq<byte>)
    ensures |r| == HeaderSize
  {
    ExtentsBlock(h) + IntervalsBlock(h) + SpacingBlock(h) + StatisticsBlock(h) + IdentityBlock(h) +
    ExtendedBlock(h) + RangesBlock(h) + TypeBlock(h) + TimeBlock(h) + WavelengthBlock(h) + OriginBlock(h) +
    h.labels
  }

  /** Each field is read at its fixed offset. */
  function Decode(bs: seq<byte>): Header
    requires |bs| == HeaderSize
  {
    Header(
      I32At(bs, 0),
      I32At(bs, 4),
      I32At(bs, 8),
      I32At(bs, 12),
      I32At(bs, 16),
      I32At(bs, 20),
      I32At(bs, 24),
      I32At(bs, 28),
      I32At(bs, 32),
      I32At(bs, 36),
      F32At(bs, 40),
      F32At(bs, 44),
      F32At(bs, 48),
      F32At(bs, 52),
      F32At(bs, 56),
      F32At(bs, 60),
      I32At(bs, 64),
      I32At(bs, 68),
      I32At(bs, 72),
      F32At(bs, 76),
      F32At(bs, 80),
      F32At(bs, 84),
      I32At(bs, 88),
      I32At(bs, 92),
      I16At(bs, 96),
      I16At(bs, 98),
      I32At(bs, 100),
      bs[104..128],
      I16At(bs, 128),
      I16At(bs, 130),
      I16At(bs, 132),
      I16At(bs, 134),
      F32At(bs, 136),
      F32At(bs, 140),
      F32At(bs, 144),
      F32At(bs, 148),
      F32At(bs, 152),
      F32At(bs, 156),
      I16At(bs, 160),
      I16At(bs, 162),
      I16At(bs, 164),
      I16At(bs, 166),
      I16At(bs, 168),
      I16At(bs, 170),
      F32At(bs, 172),
      F32At(bs, 176),
      I16At(bs, 180),
      I16At(bs, 182),
      F32At(bs, 184),
      F32At(bs, 188),
      F32At(bs, 192),
      I16At(bs, 196),
      I16At(bs, 198),
      I16At(bs, 200),
      I16At(bs, 202),
      I16At(bs, 204),
      I16At(bs, 206),
      F32At(bs, 208),
      F32At(bs, 212),
      F32At(bs, 216),
      I32At(bs, 220),
      bs[224..1024]
    )
  }

  lemma {:induction false} ReadExtentsBlock(h: Header, blk: seq<byte>)
    requires blk == ExtentsBlock(h)
    ensures I32At(blk, 0) == h.nx && I32At(blk, 4) == h.ny && I32At(blk, 8) == h.nz
    ensures I32At(blk, 12) == h.mode
  {
    I32AtEncode(blk, 0, h.nx);
    I32AtEncode(blk, 4, h.ny);
    I32AtEncode(blk, 8, h.nz);
    I32AtEncode(blk, 12, h.mode);
  }

  lemma {:induction false} DecodeExtentsBlock(h: Header, e: seq<byte>)
    requires e == Encode(h)
    ensures I32At(e, 0) == h.nx && I32At(e, 4) == h.ny && I32At(e, 8) == h.nz
    ensures I32At(e, 12) == h.mode
  {
    assert e[0..16] == ExtentsBlock(h);
    ReadExtentsBlock(h, e[0..16]);
    I32AtSlice(e, 0, 16, 0);
    I32AtSlice(e, 0, 16, 4);
    I32AtSlice(e, 0, 16, 8);
    I32AtSlice(e, 0, 16, 12);
  }

  lemma {:induction false} ReadIntervalsBlock(h: Header, blk: seq<byte>)
    requires blk == IntervalsBlock(h)
    ensures I32At(blk, 0) == h.nxst && I32At(blk, 4) == h.nyst && I32At(blk, 8) == h.nzst
    ensures I32At(blk, 12) == h.mx && I32At(blk, 16) == h.my && I32At(blk, 20) == h.mz
  {
    I32AtEncode(blk, 0, h.nxst);
    I32AtEncode(blk, 4, h.nyst);
    I32AtEncode(blk, 8, h.nzst);
    I32AtEncode(blk, 12, h.mx);
    I32AtEncode(blk, 16, h.my);
    I32AtEncode(blk, 20, h.mz);
  }

  lemma {:induction false} DecodeIntervalsBlock(h: Header, e: seq<byte>)
    requires e == Encode(h)
    ensures I32At(e, 16) == h.nxst && I32At(e, 20) == h.nyst && I32At(e, 24) == h.nzst
    ensures I32At(e, 28) == h.mx && I32At(e, 32) == h.my && I32At(e, 36) == h.mz
  {
    assert e[16..40] == IntervalsBlock(h);
    ReadIntervalsBlock(h, e[16..40]);
    I32AtSlice(e, 16, 40, 0);
    I32AtSlice(e, 16, 40, 4);
    I32AtSlice(e, 16, 40, 8);
    I32AtSlice(e, 16, 40, 12);
    I32AtSlice(e, 16, 40, 16);
    I32AtSlice(e, 16, 40, 20);
  }

  lemma {:induction false} ReadSpacingBlock(h: Header, blk: seq<byte>)
    requires blk == SpacingBlock(h)
    ensures F32At(blk, 0) == h.xlen && F32At(blk, 4) == h.ylen && F32At(blk, 8) == h.zlen
    ensures F32At(blk, 12) == h.alpha && F32At(blk, 16) == h.beta && F32At(blk, 20) == h.gamma
  {
    F32AtEncode(blk, 0, h.xlen);
    F32AtEncode(blk, 4, h.ylen);
    F32AtEncode(blk, 8, h.zlen);
    F32AtEncode(blk, 12, h.alpha);
    F32AtEncode(blk, 16, h.beta);
    F32AtEncode(blk, 20, h.gamma);
  }

  lemma {:induction false} DecodeSpacingBlock(h: Header, e: seq<byte>)
    requires e == Encode(h)
    ensures F32At(e, 40) == h.xlen && F32At(e, 44) == h.ylen && F32At(e, 48) == h.zlen
    ensures F32At(e, 52) == h.alpha && F32At(e, 56) == h.beta && F32At(e, 60) == h.gamma
  {
    assert e[40..64] == SpacingBlock(h);
    ReadSpacingBlock(h, e[40..64]);
    F32AtSlice(e, 40, 64, 0);
    F32AtSlice(e, 40, 64, 4);
    F32AtSlice(e, 40, 64, 8);
    F32AtSlice(e, 40, 64, 12);
    F32AtSlice(e, 40, 64, 16);
    F32AtSlice(e, 40, 64, 20);
  }

  lemma {:induction false} ReadStatisticsBlock(h: Header, blk: seq<byte>)
    requires blk == StatisticsBlock(h)
    ensures I32At(blk, 0) == h.mapc && I32At(blk, 4) == h.mapr && I32At(blk, 8) == h.maps
    ensures F32At(blk, 12) == h.amin && F32At(blk, 16) == h.amax && F32At(blk, 20) == h.amean
  {
    I32AtEncode(blk, 0, h.mapc);
    I32AtEncode(blk, 4, h.mapr);
    I32AtEncode(blk, 8, h.maps);
    F32AtEncode(blk, 12, h.amin);
    F32AtEncode(blk, 16, h.amax);
    F32AtEncode(blk, 20, h.amean);
  }

  lemma {:induction false} DecodeStatisticsBlock(h: Header, e: seq<byte>)
    requires e == Encode(h)
    ensures I32At(e, 64) == h.mapc && I32At(e, 68) == h.mapr && I32At(e, 72) == h.maps
    ensures F32At(e, 76) == h.amin && F32At(e, 80) == h.amax && F32At(e, 84) == h.amean
  {
    assert e[64..88] == StatisticsBlock(h);
    ReadStatisticsBlock(h, e[64..88]);
    I32AtSlice(e, 64, 88, 0);
    I32AtSlice(e, 64, 88, 4);
    I32AtSlice(e, 64, 88, 8);
    F32AtSlice(e, 64, 88, 12);
    F32AtSlice(e, 64, 88, 16);
    F32AtSlice(e, 64, 88, 20);
  }

  lemma {:induction false} ReadIdentityBlock(h: Header, blk: seq<byte>)
    requires blk == IdentityBlock(h)
    ensures I32At(blk, 0) == h.ispg && I32At(blk, 4) == h.inbsym && I16At(blk, 8) == h.nDVID
    ensures I16At(blk, 10) == h.nblank && I32At(blk, 12) == h.ntst && blk[16..40] == h.ibyte
  {
    I32AtEncode(blk, 0, h.ispg);
    I32AtEncode(blk, 4, h.inbsym);
    I16AtEncode(blk, 8, h.nDVID);
    I16AtEncode(blk, 10, h.nblank);
    I32AtEncode(blk, 12, h.ntst);
  }

  lemma {:induction false} DecodeIdentityBlock(h: Header, e: seq<byte>)
    requires e == Encode(h)
    ensures I32At(e, 88) == h.ispg && I32At(e, 92) == h.inbsym && I16At(e, 96) == h.nDVID
    ensures I16At(e, 98) == h.nblank && I32At(e, 100) == h.ntst && e[104..128] == h.ibyte
  {
    assert e[88..128] == IdentityBlock(h);
    ReadIdentityBlock(h, e[88..128]);
    I32AtSlice(e, 88, 128, 0);
    I32AtSlice(e, 88, 128, 4);
    I16AtSlice(e, 88, 128, 8);
    I16AtSlice(e, 88, 128, 10);
    I32AtSlice(e, 88, 128, 12);
  }

  lemma {:induction false} ReadExtendedBlock(h: Header, blk: seq<byte>)
    requires blk == ExtendedBlock(h)
    ensures I16At(blk, 0) == h.nint && I16At(blk, 2) == h.nreal && I16At(blk, 4) == h.nres
    ensures I16At(blk, 6) == h.nzfact
  {
    I16AtEncode(blk, 0, h.nint);
    I16AtEncode(blk, 2, h.nreal);
    I16AtEncode(blk, 4, h.nres);
    I16AtEncode(blk, 6, h.nzfact);
  }

  lemma {:induction false} DecodeExtendedBlock(h: Header, e: seq<byte>)
    requires e == Encode(h)
    ensures I16At(e, 128) == h.nint && I16At(e, 130) == h.nreal && I16At(e, 132) == h.nres
    ensures I16At(e, 134) == h.nzfact
  {
    assert e[128..136] == ExtendedBlock(h);
    ReadExtendedBlock(h, e[128..136]);
    I16AtSlice(e, 128, 136, 0);
    I16AtSlice(e, 128, 136, 2);
    I16AtSlice(e, 128, 136, 4);
    I16AtSlice(e, 128, 136, 6);
  }

  lemma {:induction false} ReadRangesBlock(h: Header, blk: seq<byte>)
    requires blk == RangesBlock(h)
    ensures F32At(blk, 0) == h.min2 && F32At(blk, 4) == h.max2 && F32At(blk, 8) == h.min3
    ensures F32At(blk, 12) == h.max3 && F32At(blk, 16) == h.min4 && F32At(blk, 20) == h.max4
  {
    F32AtEncode(blk, 0, h.min2);
    F32AtEncode(blk, 4, h.max2);
    F32AtEncode(blk, 8, h.min3);
    F32AtEncode(blk, 12, h.max3);
    F32AtEncode(blk, 16, h.min4);
    F32AtEncode(blk, 20, h.max4);
  }

  lemma {:induction false} DecodeRangesBlock(h: Header, e: seq<byte>)
    requires e == Encode(h)
    ensures F32At(e, 136) == h.min2 && F32At(e, 140) == h.max2 && F32At(e, 144) == h.min3
    ensures F32At(e, 148) == h.max3 && F32At(e, 152) == h.min4 && F32At(e, 156) == h.max4
  {
    assert e[136..160] == RangesBlock(h);
    ReadRangesBlock(h, e[136..160]);
    F32AtSlice(e, 136, 160, 0);
    F32AtSlice(e, 136, 160, 4);
    F32AtSlice(e, 136, 160, 8);
    F32AtSlice(e, 136, 160, 12);
    F32AtSlice(e, 136, 160, 16);
    F32AtSlice(e, 136, 160, 20);
  }

  lemma {:induction false} ReadTypeBlock(h: Header, blk: seq<byte>)
    requires blk == TypeBlock(h)
    ensures I16At(blk, 0) == h.fileType && I16At(blk, 2) == h.lens && I16At(blk, 4) == h.n1
    ensures I16At(blk, 6) == h.n2 && I16At(blk, 8) == h.v1 && I16At(blk, 10) == h.v2
    ensures F32At(blk, 12) == h.min5 && F32At(blk, 16) == h.max5
  {
    I16AtEncode(blk, 0, h.fileType);
    I16AtEncode(blk, 2, h.lens);
    I16AtEncode(blk, 4, h.n1);
    I16AtEncode(blk, 6, h.n2);
    I16AtEncode(blk, 8, h.v1);
    I16AtEncode(blk, 10, h.v2);
    F32AtEncode(blk, 12, h.min5);
    F32AtEncode(blk, 16, h.max5);
  }

  lemma {:induction false} DecodeTypeBlock(h: Header, e: seq<byte>)
    requires e == Encode(h)
    ensures I16At(e, 160) == h.fileType && I16At(e, 162) == h.lens && I16At(e, 164) == h.n1
    ensures I16At(e, 166) == h.n2 && I16At(e, 168) == h.v1 && I16At(e, 170) == h.v2
    ensures F32At(e, 172) == h.min5 && F32At(e, 176) == h.max5
  {
    assert e[160..180] == TypeBlock(h);
    ReadTypeBlock(h, e[160..180]);
    I16AtSlice(e, 160, 180, 0);
    I16AtSlice(e, 160, 180, 2);
    I16AtSlice(e, 160, 180, 4);
    I16AtSlice(e, 160, 180, 6);
    I16AtSlice(e, 160, 180, 8);
    I16AtSlice(e, 160, 180, 10);
    F32AtSlice(e, 160, 180, 12);
    F32AtSlice(e, 160, 180, 16);
  }

  lemma {:induction false} ReadTimeBlock(h: Header, blk: seq<byte>)
    requires blk == TimeBlock(h)
    ensures I16At(blk, 0) == h.numTimes && I16At(blk, 2) == h.interleaved && F32At(blk, 4) == h.tiltX
    ensures F32At(blk, 8) == h.tiltY && F32At(blk, 12) == h.tiltZ
  {
    I16AtEncode(blk, 0, h.numTimes);
    I16AtEncode(blk, 2, h.interleaved);
    F32AtEncode(blk, 4, h.tiltX);
    F32AtEncode(blk, 8, h.tiltY);
    F32AtEncode(blk, 12, h.tiltZ);
  }

  lemma {:induction false} DecodeTimeBlock(h: Header, e: seq<byte>)
    requires e == Encode(h)
    ensures I16At(e, 180) == h.numTimes && I16At(e, 182) == h.interleaved && F32At(e, 184) == h.tiltX
    ensures F32At(e, 188) == h.tiltY && F32At(e, 192) == h.tiltZ
  {
    assert e[180..196] == TimeBlock(h);
    ReadTimeBlock(h, e[180..196]);
    I16AtSlice(e, 180, 196, 0);
    I16AtSlice(e, 180, 196, 2);
    F32AtSlice(e, 180, 196, 4);
    F32AtSlice(e, 180, 196, 8);
    F32AtSlice(e, 180, 196, 12);
  }

  lemma {:induction false} ReadWavelengthBlock(h: Header, blk: seq<byte>)
    requires blk == WavelengthBlock(h)
    ensures I16At(blk, 0) == h.numWaves && I16At(blk, 2) == h.iwav1 && I16At(blk, 4) == h.iwav2
    ensures I16At(blk, 6) == h.iwav3 && I16At(blk, 8) == h.iwav4 && I16At(blk, 10) == h.iwav5
  {
    I16AtEncode(blk, 0, h.numWaves);
    I16AtEncode(blk, 2, h.iwav1);
    I16AtEncode(blk, 4, h.iwav2);
    I16AtEncode(blk, 6, h.iwav3);
    I16AtEncode(blk, 8, h.iwav4);
    I16AtEncode(blk, 10, h.iwav5);
  }

  lemma {:induction false} DecodeWavelengthBlock(h: Header, e: seq<byte>)
    requires e == Encode(h)
    ensures I16At(e, 196) == h.numWaves && I16At(e, 198) == h.iwav1 && I16At(e, 200) == h.iwav2
    ensures I16At(e, 202) == h.iwav3 && I16At(e, 204) == h.iwav4 && I16At(e, 206) == h.iwav5
  {
    assert e[196..208] == WavelengthBlock(h);
    ReadWavelengthBlock(h, e[196..208]);
    I16AtSlice(e, 196, 208, 0);
    I16AtSlice(e, 196, 208, 2);
    I16AtSlice(e, 196, 208, 4);
    I16AtSlice(e, 196, 208, 6);
    I16AtSlice(e, 196, 208, 8);
    I16AtSlice(e, 196, 208, 10);
  }

  lemma {:induction false} ReadOriginBlock(h: Header, blk: seq<byte>)
    requires blk == OriginBlock(h)
    ensures F32At(blk, 0) == h.zorig && F32At(blk, 4) == h.xorig && F32At(blk, 8) == h.yorig
    ensures I32At(blk, 12) == h.nlab
  {
    F32AtEncode(blk, 0, h.zorig);
    F32AtEncode(blk, 4, h.xorig);
    F32AtEncode(blk, 8, h.yorig);
    I32AtEncode(blk, 12, h.nlab);
  }

  lemma {:induction false} DecodeOriginBlock(h: Header, e: seq<byte>)
    requires e == Encode(h)
    ensures F32At(e, 208) == h.zorig && F32At(e, 212) == h.xorig && F32At(e, 216) == h.yorig
    ensures I32At(e, 220) == h.nlab
  {
    assert e[208..224] == OriginBlock(h);
    ReadOriginBlock(h, e[208..224]);
    F32AtSlice(e, 208, 224, 0);
    F32AtSlice(e, 208, 224, 4);
    F32AtSlice(e, 208, 224, 8);
    I32AtSlice(e, 208, 224, 12);
  }

  /**
   * Where `putHeader` puts the fields the file core consults: the extents
   * and mode first, the statistics at 76, the extended-header size at 92,
   * the byte-order mark at 96, the file type at 160, the time and sequence
   * codes at 180 and 182, the wavelength count at 196, the title count at
   * 220 and the titles from 224.
   */
  lemma {:induction false} EncodeOffsets(h: Header)
    ensures var e := Encode(h);
            I32At(e, 0) == h.nx && I32At(e, 4) == h.ny && I32At(e, 8) == h.nz && I32At(e, 12) == h.mode
            && F32At(e, 76) == h.amin && F32At(e, 80) == h.amax && F32At(e, 84) == h.amean
            && I32At(e, 92) == h.inbsym && I16At(e, 96) == h.nDVID && I16At(e, 160) == h.fileType
            && I16At(e, 180) == h.numTimes && I16At(e, 182) == h.interleaved && I16At(e, 196) == h.numWaves
            && I32At(e, 220) == h.nlab && e[224..] == h.labels
  {
    var e := Encode(h);
    DecodeEncode(h);
    assert Decode(e) == h;
  }

  /** Writing a header and reading it back gives the same header, every field and the title block verbatim. */
  lemma {:induction false} DecodeEncode(h: Header)
    ensures Decode(Encode(h)) == h
  {
    var e := Encode(h);
    assert e[224..1024] == h.labels;
    DecodeExtentsBlock(h, e);
    DecodeIntervalsBlock(h, e);
    DecodeSpacingBlock(h, e);
    DecodeStatisticsBlock(h, e);
    DecodeIdentityBlock(h, e);
    DecodeExtendedBlock(h, e);
    DecodeRangesBlock(h, e);
    DecodeTypeBlock(h, e);
    DecodeTimeBlock(h, e);
    DecodeWavelengthBlock(h, e);
    DecodeOriginBlock(h, e);
  }

  lemma {:induction false} EncodeExtentsBlockDecode(bs: seq<byte>)
    requires |bs| == HeaderSize
    ensures ExtentsBlock(Decode(bs)) == bs[0..16]
  {
    EncodeI32At(bs, 0);
    EncodeI32At(bs, 4);
    EncodeI32At(bs, 8);
    EncodeI32At(bs, 12);
    JoinSlices(bs, 0, 4, 8);
    JoinSlices(bs, 0, 8, 12);
    JoinSlices(bs, 0, 12, 16);
  }

  lemma {:induction false} EncodeIntervalsBlockDecode(bs: seq<byte>)
    requires |bs| == HeaderSize
    ensures IntervalsBlock(Decode(bs)) == bs[16..40]
  {
    EncodeI32At(bs, 16);
    EncodeI32At(bs, 20);
    EncodeI32At(bs, 24);
    EncodeI32At(bs, 28);
    EncodeI32At(bs, 32);
    EncodeI32At(bs, 36);
    JoinSlices(bs, 16, 20, 24);
    JoinSlices(bs, 16, 24, 28);
    JoinSlices(bs, 16, 28, 32);
    JoinSlices(bs, 16, 32, 36);
    JoinSlices(bs, 16, 36, 40);
  }

  lemma {:induction false} EncodeSpacingBlockDecode(bs: seq<byte>)
    requires |bs| == HeaderSize
    ensures SpacingBlock(Decode(bs)) == bs[40..64]
  {
    EncodeF32At(bs, 40);
    EncodeF32At(bs, 44);
    EncodeF32At(bs, 48);
    EncodeF32At(bs, 52);
    EncodeF32At(bs, 56);
    EncodeF32At(bs, 60);
    JoinSlices(bs, 40, 44, 48);
    JoinSlices(bs, 40, 48, 52);
    JoinSlices(bs, 40, 52, 56);
    JoinSlices(bs, 40, 56, 60);
    JoinSlices(bs, 40, 60, 64);
  }

  lemma {:induction false} EncodeStatisticsBlockDecode(bs: seq<byte>)
    requires |bs| == HeaderSize
    ensures StatisticsBlock(Decode(bs)) == bs[64..88]
  {
    EncodeI32At(bs, 64);
    EncodeI32At(bs, 68);
    EncodeI32At(bs, 72);
    EncodeF32At(bs, 76);
    EncodeF32At(bs, 80);
    EncodeF32At(bs, 84);
    JoinSlices(bs, 64, 68, 72);
    JoinSlices(bs, 64, 72, 76);
    JoinSlices(bs, 64, 76, 80);
    JoinSlices(bs, 64, 80, 84);
    JoinSlices(bs, 64, 84, 88);
  }

  lemma {:induction false} EncodeIdentityBlockDecode(bs: seq<byte>)
    requires |bs| == HeaderSize
    ensures IdentityBlock(Decode(bs)) == bs[88..128]
  {
    EncodeI32At(bs, 88);
    EncodeI32At(bs, 92);
    EncodeI16At(bs, 96);
    EncodeI16At(bs, 98);
    EncodeI32At(bs, 100);
    JoinSlices(bs, 88, 92, 96);
    JoinSlices(bs, 88, 96, 98);
    JoinSlices(bs, 88, 98, 100);
    JoinSlices(bs, 88, 100, 104);
    JoinSlices(bs, 88, 104, 128);
  }

  lemma {:induction false} EncodeExtendedBlockDecode(bs: seq<byte>)
    requires |bs| == HeaderSize
    ensures ExtendedBlock(Decode(bs)) == bs[128..136]
  {
    EncodeI16At(bs, 128);
    EncodeI16At(bs, 130);
    EncodeI16At(bs, 132);
    EncodeI16At(bs, 134);
    JoinSlices(bs, 128, 130, 132);
    JoinSlices(bs, 128, 132, 134);
    JoinSlices(bs, 128, 134, 136);
  }

  lemma {:induction false} EncodeRangesBlockDecode(bs: seq<byte>)
    requires |bs| == HeaderSize
    ensures RangesBlock(Decode(bs)) == bs[136..160]
  {
    EncodeF32At(bs, 136);
    EncodeF32At(bs, 140);
    EncodeF32At(bs, 144);
    EncodeF32At(bs, 148);
    EncodeF32At(bs, 152);
    EncodeF32At(bs, 156);
    JoinSlices(bs, 136, 140, 144);
    JoinSlices(bs, 136, 144, 148);
    JoinSlices(bs, 136, 148, 152);
    JoinSlices(bs, 136, 152, 156);
    JoinSlices(bs, 136, 156, 160);
  }

  lemma {:induction false} EncodeTypeBlockDecode(bs: seq<byte>)
    requires |bs| == HeaderSize
    ensures TypeBlock(Decode(bs)) == bs[160..180]
  {
    EncodeI16At(bs, 160);
    EncodeI16At(bs, 162);
    EncodeI16At(bs, 164);
    EncodeI16At(bs, 166);
    EncodeI16At(bs, 168);
    EncodeI16At(bs, 170);
    EncodeF32At(bs, 172);
    EncodeF32At(bs, 176);
    JoinSlices(bs, 160, 162, 164);
    JoinSlices(bs, 160, 164, 166);
    JoinSlices(bs, 160, 166, 168);
    JoinSlices(bs, 160, 168, 170);
    JoinSlices(bs, 160, 170, 172);
    JoinSlices(bs, 160, 172, 176);
    JoinSlices(bs, 160, 176, 180);
  }

  lemma {:induction false} EncodeTimeBlockDecode(bs: seq<byte>)
    requires |bs| == HeaderSize
    ensures TimeBlock(Decode(bs)) == bs[180..196]
  {
    EncodeI16At(bs, 180);
    EncodeI16At(bs, 182);
    EncodeF32At(bs, 184);
    EncodeF32At(bs, 188);
    EncodeF32At(bs, 192);
    JoinSlices(bs, 180, 182, 184);
    JoinSlices(bs, 180, 184, 188);
    JoinSlices(bs, 180, 188, 192);
    JoinSlices(bs, 180, 192, 196);
  }

  lemma {:induction false} EncodeWavelengthBlockDecode(bs: seq<byte>)
    requires |bs| == HeaderSize
    ensures WavelengthBlock(Decode(bs)) == bs[196..208]
  {
    EncodeI16At(bs, 196);
    EncodeI16At(bs, 198);
    EncodeI16At(bs, 200);
    EncodeI16At(bs, 202);
    EncodeI16At(bs, 204);
    EncodeI16At(bs, 206);
    JoinSlices(bs, 196, 198, 200);
    JoinSlices(bs, 196, 200, 202);
    JoinSlices(bs, 196, 202, 204);
    JoinSlices(bs, 196, 204, 206);
    JoinSlices(bs, 196, 206, 208);
  }

  lemma {:induction false} EncodeOriginBlockDecode(bs: seq<byte>)
    requires |bs| == HeaderSize
    ensures OriginBlock(Decode(bs)) == bs[208..224]
  {
    EncodeF32At(bs, 208);
    EncodeF32At(bs, 212);
    EncodeF32At(bs, 216);
    EncodeI32At(bs, 220);
    JoinSlices(bs, 208, 212, 216);
    JoinSlices(bs, 208, 216, 220);
    JoinSlices(bs, 208, 220, 224);
  }

  /** Every 1024-byte block is the encoding of the header read from it: the header is taken verbatim. */
  lemma {:induction false} EncodeDecode(bs: seq<byte>)
    requires |bs| == HeaderSize
    ensures Encode(Decode(bs)) == bs
  {
    EncodeExtentsBlockDecode(bs);
    EncodeIntervalsBlockDecode(bs);
    EncodeSpacingBlockDecode(bs);
    EncodeStatisticsBlockDecode(bs);
    EncodeIdentityBlockDecode(bs);
    EncodeExtendedBlockDecode(bs);
    EncodeRangesBlockDecode(bs);
    EncodeTypeBlockDecode(bs);
    EncodeTimeBlockDecode(bs);
    EncodeWavelengthBlockDecode(bs);
    EncodeOriginBlockDecode(bs);
    JoinSlices(bs, 0, 16, 40);
    JoinSlices(bs, 0, 40, 64);
    JoinSlices(bs, 0, 64, 88);
    JoinSlices(bs, 0, 88, 128);
    JoinSlices(bs, 0, 128, 136);
    JoinSlices(bs, 0, 136, 160);
    JoinSlices(bs, 0, 160, 180);
    JoinSlices(bs, 0, 180, 196);
    JoinSlices(bs, 0, 196, 208);
    JoinSlices(bs, 0, 208, 224);
    JoinSlices(bs, 0, 224, 1024);
  }
}
