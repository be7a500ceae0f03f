/**
 * The title rules of `IMWrHdr`: C strings over bytes, `strncpy` into the
 * first 80-byte title of the header's label block, and the header that
 * results from one call. A byte sequence taken as a C string ends at its
 * first NUL, or at its end when it has none.
 */
module Titles {
  import opened Bytes
  import opened Errors
  import opened MrcHeader

  const TitleWidth := 80
  const Space: byte := 0x20

  /** `strlen`: the number of bytes before the first NUL (all of them when there is none). */
  function CLength(s: seq<byte>): (n: nat)
    ensures n <= |s|
    ensures forall i :: 0 <= i < n ==> s[i] != 0
    ensures n < |s| ==> s[n] == 0
  {
    if s == [] || s[0] == 0 then 0 else 1 + CLength(s[1..])
  }

  /** The string a `char*` names: its bytes up to the terminator. */
  function CStr(s: seq<byte>): (r: seq<byte>)
    ensures |r| <= |s| && r == s[..|r|]
    ensures forall i :: 0 <= i < |r| ==> r[i] != 0
    ensures |r| < |s| ==> s[|r|] == 0
  {
    s[..CLength(s)]
  }

  /** A NUL at k with none before it fixes the string length at k. */
  lemma {:induction false} CLengthAt(s: seq<byte>, k: nat)
    requires k <= |s| && (k < |s| ==> s[k] == 0)
    requires forall i :: 0 <= i < k ==> s[i] != 0
    ensures CLength(s) == k
  {
    if k > 0 {
      CLengthAt(s[1..], k - 1);
    }
  }

  /**
   * `strncpy(dst, src, n)`: copies the string in src but at most n bytes,
   * fills the rest of the first n bytes of dst with NULs, and leaves the
   * bytes of dst from n on alone. When src is n bytes long or more no NUL is
   * written.
   */
  function StrNCpy(dst: seq<byte>, src: seq<byte>, n: nat): (r: seq<byte>)
    requires n <= |dst|
    ensures |r| == |dst|
    ensures var k := if CLength(src) < n then CLength(src) else n;
            r[..k] == src[..k] && (forall i :: k <= i < n ==> r[i] == 0) && r[n..] == dst[n..]
  {
    var k := if CLength(src) < n then CLength(src) else n;
    src[..k] + seq(n - k, _ => 0) + dst[n..]
  }

  /** A string shorter than n is copied with its terminator: it reads back unchanged. */
  lemma {:induction false} StrNCpyReadsBack(dst: seq<byte>, src: seq<byte>, n: nat)
    requires n <= |dst| && CLength(src) < n
    ensures CStr(StrNCpy(dst, src, n)) == CStr(src)
  {
    var r := StrNCpy(dst, src, n);
    var k := CLength(src);
    assert r[..k] == src[..k];
    assert forall i :: 0 <= i < k ==> r[i] == src[i];
    CLengthAt(r, k);
  }

  /** A string of n bytes or more fills all n bytes and leaves no terminator among them. */
  lemma {:induction false} StrNCpyUnterminated(dst: seq<byte>, src: seq<byte>, n: nat)
    requires n <= |dst| && n <= CLength(src)
    ensures StrNCpy(dst, src, n)[..n] == src[..n]
    ensures forall i :: 0 <= i < n ==> StrNCpy(dst, src, n)[i] != 0
  {
    var r := StrNCpy(dst, src, n);
    assert forall i :: 0 <= i < n ==> r[i] == r[..n][i] == src[..n][i] == src[i];
  }

  /**
   * The header `IMWrHdr` writes: the current header with amin, amax and
   * amean replaced, and the first title set from `title` by `ntflag`:
   * 0 copies the title; 1 copies title + " " + the current first label
   * (so the new title comes first, and all of it is cut to 80 bytes).
   * Any other flag is an error.
   */
  function RetitledHeader(h: Header, title: seq<byte>, ntflag: int, dmin: float32, dmax: float32, dmean: float32): (r: Result<Header>)
    ensures r.Ok? <==> ntflag == 0 || ntflag == 1
    ensures r.Err? ==> r.error == InvalidNtflag(ntflag)
    ensures r.Ok? ==> r.value.amin == dmin && r.value.amax == dmax && r.value.amean == dmean
    ensures r.Ok? ==> r.value.(amin := h.amin, amax := h.amax, amean := h.amean, labels := h.labels) == h
    ensures r.Ok? ==> r.value.labels[TitleWidth..] == h.labels[TitleWidth..]
    ensures ntflag == 0 ==> r.value.labels == StrNCpy(h.labels, title, TitleWidth)
    ensures ntflag == 1 ==> r.value.labels == StrNCpy(h.labels, CStr(title) + [Space] + CStr(h.labels), TitleWidth)
  {
    var stats := h.(amin := dmin, amax := dmax, amean := dmean);
    if ntflag == 0 then
      Ok(stats.(labels := StrNCpy(h.labels, title, TitleWidth)))
    else if ntflag == 1 then
      Ok(stats.(labels := StrNCpy(h.labels, CStr(title) + [Space] + CStr(h.labels), TitleWidth)))
    else
      Err(InvalidNtflag(ntflag))
  }

  /** ntflag 0 with a title shorter than 80 bytes: the first label reads as the title. */
  lemma {:induction false} ReplaceTitle(h: Header, title: seq<byte>, dmin: float32, dmax: float32, dmean: float32)
    requires CLength(title) < TitleWidth
    ensures CStr(RetitledHeader(h, title, 0, dmin, dmax, dmean).value.labels) == CStr(title)
  {
    StrNCpyReadsBack(h.labels, title, TitleWidth);
  }

  /**
   * ntflag 1 when everything fits in 80 bytes: the first label reads as the
   * new title, a space, and the old first label.
   */
  lemma {:induction false} PrependTitle(h: Header, title: seq<byte>, dmin: float32, dmax: float32, dmean: float32)
    requires |CStr(title)| + 1 + |CStr(h.labels)| < TitleWidth
    ensures CStr(RetitledHeader(h, title, 1, dmin, dmax, dmean).value.labels)
            == CStr(title) + [Space] + CStr(h.labels)
  {
    var src := CStr(title) + [Space] + CStr(h.labels);
    CLengthAt(src, |src|);
    assert CStr(src) == src;
    StrNCpyReadsBack(h.labels, src, TitleWidth);
  }

  /**
   * Writing the title "abc" with ntflag 0 and then "xyz" with ntflag 1
   * leaves "xyz abc" as the first label.
   */
  lemma TitleSequence(h: Header, dmin: float32, dmax: float32, dmean: float32)
    ensures var abc, xyz := [0x61, 0x62, 0x63], [0x78, 0x79, 0x7A];
            var h1 := RetitledHeader(h, abc, 0, dmin, dmax, dmean).value;
            var h2 := RetitledHeader(h1, xyz, 1, dmin, dmax, dmean).value;
            CStr(h2.labels) == [0x78, 0x79, 0x7A, Space, 0x61, 0x62, 0x63]
  {
    var abc: seq<byte>, xyz: seq<byte> := [0x61, 0x62, 0x63], [0x78, 0x79, 0x7A];
    CLengthAt(abc, 3);
    CLengthAt(xyz, 3);
    var h1 := RetitledHeader(h, abc, 0, dmin, dmax, dmean).value;
    ReplaceTitle(h, abc, dmin, dmax, dmean);
    PrependTitle(h1, xyz, dmin, dmax, dmean);
  }
}
