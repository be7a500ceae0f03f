/**
 * The pixel-type registry: the byte width of each sample representation a
 * header's `mode` may name. Lookup of any other code fails; it never falls
 * back to a default width.
 */
module PixelTypes {
  import opened Errors

  const ModeAsIs := -1
  const ModeByte := 0
  const ModeShort := 1
  const ModeFloat := 2
  const ModeComplexShort := 3
  const ModeComplex := 4
  const ModeEmtom := 5
  const ModeUShort := 6
  const ModeLong := 7

  /** Code -> width in bytes; a complex sample is two components. */
  const PixelTypeSizes: map<int, nat> := map[
    ModeByte := 1, ModeShort := 2,
    ModeFloat := 4, ModeComplexShort := 2 * 2,
    ModeComplex := 2 * 4, ModeEmtom := 2,
    ModeUShort := 2, ModeLong := 4]

  /** The table read with `.at()`: an absent code raises instead of defaulting. */
  function PixelSize(mode: int): (r: Result<nat>)
    ensures r.Ok? <==> 0 <= mode < 8
    ensures r.Ok? ==> r.value == [1, 2, 4, 4, 8, 2, 2, 4][mode]
    ensures r.Err? ==> r.error == UnknownPixelType
  {
    if mode in PixelTypeSizes then Ok(PixelTypeSizes[mode]) else Err(UnknownPixelType)
  }
}
