/**
 * Where a section lives. A DeltaVision file stores its 2-D sections
 * (frames of ny * nx pixels) one after another behind the 1024-byte header
 * and `inbsym` bytes of extended header, time point outermost, then
 * wavelength, then z. The layout below is the one `setCurrentZWT` seeks by;
 * it does not consult `interleaved`.
 */
module Sections {
  import opened Arithmetic
  import opened Errors
  import opened PixelTypes
  import opened MrcHeader
  import Bytes

  /**
   * `ny * nx * getPixelSize()` as a `size_t`: the bytes in one frame. An
   * unknown pixel type fails the lookup, so no frame size exists.
   */
  function FrameSize(h: Header): (r: Result<nat>)
    ensures r.Ok? <==> 0 <= h.mode < 8
    ensures r.Err? ==> r.error == UnknownPixelType
    ensures r.Ok? ==> r.value < TwoTo64
  {
    match PixelSize(h.mode)
    case Err(e) => Err(e)
    case Ok(ps) => Ok(ToSize(h.ny * h.nx * ps))
  }

  /**
   * When ny * nx is a non-negative `int` (no overflow in the C product), the
   * frame size is exactly ny * nx pixels of the mode's width.
   */
  lemma {:induction false} FrameSizeExact(h: Header)
    requires 0 <= h.mode < 8 && 0 <= h.ny && 0 <= h.nx && h.ny * h.nx < 0x8000_0000
    ensures FrameSize(h) == Ok(h.ny * h.nx * [1, 2, 4, 4, 8, 2, 2, 4][h.mode])
  {
    var ps := [1, 2, 4, 4, 8, 2, 2, 4][h.mode];
    assert 0 <= h.ny * h.nx;
    MulMono(h.ny * h.nx, 0x8000_0000, ps);
    MulMono(ps, 8, 0x8000_0000);
  }

  /**
   * `_validateZWT`: the time index is checked first, then the wavelength,
   * then the section, each against an exclusive upper bound only; each
   * failure has its own error. Negative indices are not rejected.
   */
  function ValidateZWT(h: Header, z: int, w: int, t: int): (r: Outcome)
    ensures r == Pass <==> t < h.numTimes && w < h.numWaves && z < NumPlanes(h)
    ensures r == Fail(TimeIndexOutOfRange) <==> t >= h.numTimes
    ensures r == Fail(WavelengthIndexOutOfRange) <==> t < h.numTimes && w >= h.numWaves
    ensures r == Fail(SectionIndexOutOfRange) <==> t < h.numTimes && w < h.numWaves && z >= NumPlanes(h)
  {
    if t >= h.numTimes then Fail(TimeIndexOutOfRange)
    else if w >= h.numWaves then Fail(WavelengthIndexOutOfRange)
    else if z >= NumPlanes(h) then Fail(SectionIndexOutOfRange)
    else Pass
  }

  /** `1024 + inbsym`: where the first section starts. */
  function DataStart(h: Header): int
  {
    1024 + h.inbsym
  }

  /** `t*num_waves*num_planes() + w*num_planes() + z`: the section's number in file order. */
  function LinearIndex(h: Header, z: int, w: int, t: int): (i: int)
    ensures i == (t * h.numWaves + w) * NumPlanes(h) + z
  {
    MixedRadix(z, w, t, h.numWaves as int, NumPlanes(h));
    t * h.numWaves * NumPlanes(h) + w * NumPlanes(h) + z
  }

  /**
   * The argument `seekg` receives: the sum formed in `size_t` arithmetic
   * (modulo 2^64) and then read as a signed stream offset.
   */
  function SeekTarget(h: Header, z: int, w: int, t: int, frameSize: nat): (r: int)
    ensures -TwoTo63 <= r < TwoTo63
    ensures (r - (DataStart(h) + LinearIndex(h, z, w, t) * frameSize)) % TwoTo64 == 0
  {
    var sum := DataStart(h) + LinearIndex(h, z, w, t) * frameSize;
    ModularSum(sum);
    ToOffset(ToSize(sum))
  }

  lemma ModularSum(x: int)
    ensures (ToOffset(ToSize(x)) - x) % TwoTo64 == 0
  {
    var u := ToSize(x);
    assert (u - x) % TwoTo64 == 0;
  }

  /**
   * What `setCurrentZWT(z, w, t)` does before touching the stream: validate
   * the triple, look up the frame size, and form the seek target.
   */
  function SectionPosition(h: Header, z: int, w: int, t: int): (r: Result<int>)
    ensures r.Ok? <==> ValidateZWT(h, z, w, t) == Pass && FrameSize(h).Ok?
    ensures ValidateZWT(h, z, w, t).Fail? ==> r == Err(ValidateZWT(h, z, w, t).error)
    ensures ValidateZWT(h, z, w, t) == Pass && FrameSize(h).Err? ==> r == Err(UnknownPixelType)
  {
    match ValidateZWT(h, z, w, t)
    case Fail(e) => Err(e)
    case Pass =>
      match FrameSize(h)
      case Err(e) => Err(e)
      case Ok(fs) => Ok(SeekTarget(h, z, w, t, fs))
  }

  /**
   * The position depends on the counts, the pixel type and the extended
   * header size only: the `interleaved` code does not change where a
   * section is sought.
   */
  lemma SectionPositionIgnoresInterleaved(h: Header, code: Bytes.int16, z: int, w: int, t: int)
    ensures SectionPosition(h.(interleaved := code), z, w, t) == SectionPosition(h, z, w, t)
  {
  }

  /** A triple inside [0, num_planes) x [0, num_waves) x [0, num_times). */
  predicate InRange(h: Header, z: int, w: int, t: int)
  {
    0 <= z < NumPlanes(h) && 0 <= w < h.numWaves && 0 <= t < h.numTimes
  }

  /** The number of sections the header describes. */
  function SectionCount(h: Header): int
  {
    h.numTimes * h.numWaves * NumPlanes(h)
  }

  /** The index in mixed radix: (t * nw + w) * np + z. */
  lemma MixedRadix(z: int, w: int, t: int, nw: int, np: int)
    ensures t * nw * np + w * np + z == (t * nw + w) * np + z
  {
  }

  /** A digit pair (q, d) with 0 <= d < r and 0 <= q < n gives 0 <= q * r + d < n * r. */
  lemma {:induction false} DigitBounds(q: int, d: int, r: int, n: int)
    requires 0 <= q < n && 0 <= d < r
    ensures 0 <= q * r + d < n * r
  {
    MulMono(0, q, r);
    MulMono(q, n - 1, r);
    assert (n - 1) * r == n * r - r;
  }

  /** Every in-range triple numbers a section in [0, SectionCount). */
  lemma {:induction false} LinearIndexBounds(h: Header, z: int, w: int, t: int)
    requires InRange(h, z, w, t)
    ensures 0 <= LinearIndex(h, z, w, t) < SectionCount(h)
  {
    var np, nw, nt := NumPlanes(h), h.numWaves as int, h.numTimes as int;
    MixedRadix(z, w, t, nw, np);
    DigitBounds(t, w, nw, nt);
    DigitBounds(t * nw + w, z, np, nt * nw);
  }

  /** Distinct in-range triples number distinct sections. */
  lemma {:induction false} LinearIndexInjective(h: Header, z1: int, w1: int, t1: int, z2: int, w2: int, t2: int)
    requires InRange(h, z1, w1, t1) && InRange(h, z2, w2, t2)
    requires LinearIndex(h, z1, w1, t1) == LinearIndex(h, z2, w2, t2)
    ensures z1 == z2 && w1 == w2 && t1 == t2
  {
    var np, nw := NumPlanes(h), h.numWaves as int;
    var i := LinearIndex(h, z1, w1, t1);
    MixedRadix(z1, w1, t1, nw, np);
    MixedRadix(z2, w2, t2, nw, np);
    DigitsUnique(i, np, t1 * nw + w1, z1, t2 * nw + w2, z2);
    DigitsUnique(t1 * nw + w1, nw, t1, w1, t2, w2);
  }

  /** A number has one decomposition q * r + d with 0 <= d < r. */
  lemma DigitsUnique(i: int, r: int, q1: int, d1: int, q2: int, d2: int)
    requires 0 < r && 0 <= d1 < r && 0 <= d2 < r
    requires i == q1 * r + d1 && q1 * r + d1 == q2 * r + d2
    ensures q1 == q2 && d1 == d2
  {
    DivUnique(i, r, q1, d1);
    DivUnique(i, r, q2, d2);
  }

  /**
   * The frames of two distinct in-range triples do not overlap: each starts
   * at DataStart + index * frameSize and spans frameSize bytes.
   */
  lemma {:induction false} SectionsDisjoint(h: Header, fs: nat, z1: int, w1: int, t1: int, z2: int, w2: int, t2: int)
    requires InRange(h, z1, w1, t1) && InRange(h, z2, w2, t2)
    requires (z1, w1, t1) != (z2, w2, t2)
    ensures var o1, o2 := DataStart(h) + LinearIndex(h, z1, w1, t1) * fs, DataStart(h) + LinearIndex(h, z2, w2, t2) * fs;
            o1 + fs <= o2 || o2 + fs <= o1
  {
    var i1, i2 := LinearIndex(h, z1, w1, t1), LinearIndex(h, z2, w2, t2);
    if i1 == i2 {
      LinearIndexInjective(h, z1, w1, t1, z2, w2, t2);
    } else {
      ApartByOne(i1, i2, fs);
    }
  }

  lemma ApartByOne(i1: int, i2: int, fs: nat)
    requires i1 != i2
    ensures i1 * fs + fs <= i2 * fs || i2 * fs + fs <= i1 * fs
  {
    if i1 < i2 {
      MulMono(i1 + 1, i2, fs);
    } else {
      MulMono(i2 + 1, i1, fs);
    }
  }

  /** The last section (np-1, nw-1, nt-1) ends exactly where the section data ends. */
  lemma {:induction false} LastSectionEnd(h: Header, fs: nat)
    requires NumPlanes(h) > 0 && h.numWaves > 0 && h.numTimes > 0
    ensures var last := LinearIndex(h, NumPlanes(h) - 1, h.numWaves - 1, h.numTimes - 1);
            DataStart(h) + last * fs + fs == DataStart(h) + SectionCount(h) * fs
  {
    var np, nw, nt := NumPlanes(h), h.numWaves as int, h.numTimes as int;
    MixedRadix(np - 1, nw - 1, nt - 1, nw, np);
    LastDigits(np, nw, nt, fs);
  }

  lemma LastDigits(np: int, nw: int, nt: int, fs: int)
    ensures (((nt - 1) * nw + (nw - 1)) * np + (np - 1)) * fs + fs == nt * nw * np * fs
  {
    assert (nt - 1) * nw + (nw - 1) == nt * nw - 1;
    assert (nt * nw - 1) * np + (np - 1) + 1 == nt * nw * np;
  }

  /**
   * For an in-range triple, a known pixel type and a file whose section
   * data fits in a signed 64-bit offset, the seek target is exactly
   * 1024 + inbsym + index * frameSize: no wrap-around happens.
   */
  lemma {:induction false} SectionPositionExact(h: Header, z: int, w: int, t: int)
    requires InRange(h, z, w, t) && 0 <= h.mode < 8
    requires 0 <= DataStart(h)
    requires DataStart(h) + SectionCount(h) * FrameSize(h).value < TwoTo63
    ensures SectionPosition(h, z, w, t) == Ok(DataStart(h) + LinearIndex(h, z, w, t) * FrameSize(h).value)
  {
    var fs := FrameSize(h).value;
    var i := LinearIndex(h, z, w, t);
    LinearIndexBounds(h, z, w, t);
    MulMono(0, i, fs);
    MulMono(i, SectionCount(h), fs);
    var sum := DataStart(h) + i * fs;
    assert 0 <= sum < TwoTo63;
    assert ToSize(sum) == sum;
  }

  /**
   * A 64 x 32 file of 16-bit samples with nz = 6 over two wavelengths and
   * three time points (one real plane): section (z 0, w 1, t 2) is the
   * sixth frame, at 1024 + 5 * 4096.
   */
  lemma {:induction false} SixFrameLayout(h: Header)
    requires h.nx == 64 && h.ny == 32 && h.nz == 6 && h.numWaves == 2 && h.numTimes == 3
    requires h.mode == ModeShort && h.inbsym == 0
    ensures NumPlanes(h) == 1 && FrameSize(h) == Ok(4096) && LinearIndex(h, 0, 1, 2) == 5
    ensures SectionPosition(h, 0, 1, 2) == Ok(1024 + 5 * 4096)
  {
    NumPlanesExact(h, 1);
    FrameSizeExact(h);
    SectionPositionExact(h, 0, 1, 2);
  }
}
