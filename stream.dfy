/**
 * The part of `std::fstream` the file core relies on, as a value: the
 * file's bytes, the single position that `seekg`/`seekp` and `read`/`write`
 * share on a file stream, the sticky failure state (`fail()`), and whether a
 * file is attached (`is_open()`). Every transition is a function from the
 * old stream to the new one.
 */
module FileStream {
  import opened Bytes

  datatype Stream = Stream(data: seq<byte>, pos: nat, failed: bool, isOpen: bool)

  /** A stream object that has no file attached yet. */
  const Detached: Stream := Stream([], 0, false, false)

  /** The flags of a `std::ios_base::openmode` that decide whether a file buffer opens. */
  datatype OpenMode = OpenMode(input: bool, output: bool, trunc: bool, app: bool, binary: bool)

  /** `in | out | binary`: how an existing DeltaVision file is opened. */
  const InOutBinary: OpenMode := OpenMode(true, true, false, false, true)
  /** `in | out | binary | trunc`: how a new DeltaVision file is created. */
  const InOutBinaryTrunc: OpenMode := OpenMode(true, true, true, false, true)

  /**
   * The open-mode table of `basic_filebuf::open` ([filebuf.members] in
   * ISO/IEC 14882, the C++ standard): the nine combinations of in, out, trunc and app
   * that have a stdio equivalent ("w", "a", "r", "r+", "w+", "a+"); binary
   * only selects binary I/O. Any other combination makes the open fail.
   */
  predicate FileBufAccepts(m: OpenMode)
  {
    var i, o, t, a := m.input, m.output, m.trunc, m.app;
    (!i && o && !t && !a)        // "w"
    || (!i && o && t && !a)      // "w"
    || (!i && o && !t && a)      // "a"
    || (!i && !o && !t && a)     // "a"
    || (i && !o && !t && !a)     // "r"
    || (i && o && !t && !a)      // "r+"
    || (i && o && t && !a)       // "w+"
    || (i && o && !t && a)       // "a+"
    || (i && !o && !t && a)      // "a+"
  }

  /**
   * `fstream::open(path, m)` on a stream with no file attached. The file
   * system is a parameter: `accessible` says whether the path can be opened
   * (or created, under trunc) at all, and `onDisk` is what it holds. On
   * success the stream is reset to a fresh state at position 0 (trunc
   * empties the file); on failure the fail bit is set and nothing else
   * changes.
   */
  function OpenFile(s: Stream, m: OpenMode, accessible: bool, onDisk: seq<byte>): (r: Stream)
    requires !s.isOpen
    ensures r.isOpen <==> accessible && FileBufAccepts(m)
    ensures r.isOpen ==> r == Stream(if m.trunc then [] else onDisk, 0, false, true)
    ensures !r.isOpen ==> r == s.(failed := true)
  {
    if accessible && FileBufAccepts(m) then Stream(if m.trunc then [] else onDisk, 0, false, true)
    else s.(failed := true)
  }

  /** `fstream::close()`: the file is detached and its bytes stay as they are on disk. */
  function CloseFile(s: Stream): (r: Stream)
    ensures !r.isOpen
    ensures r.data == s.data
    ensures r.failed == (s.failed || !s.isOpen)
  {
    if s.isOpen then s.(isOpen := false) else s.(failed := true)
  }

  /** A stream on which `read`, `write` and the seeks take effect. */
  predicate Healthy(s: Stream)
  {
    s.isOpen && !s.failed
  }

  /**
   * `seekg(target)` / `seekp(target)`: a failed stream ignores it; a
   * negative target, or a stream with no file, sets the fail bit. Seeking
   * past the end is allowed.
   */
  function Seek(s: Stream, target: int): (r: Stream)
    ensures r.data == s.data && r.isOpen == s.isOpen
    ensures Healthy(s) && target >= 0 ==> r == s.(pos := target)
    ensures !(Healthy(s) && target >= 0) ==> r == s.(failed := true)
  {
    if s.failed then s
    else if !s.isOpen || target < 0 then s.(failed := true)
    else s.(pos := target)
  }

  function Min(a: int, b: int): int { if a <= b then a else b }

  datatype Transfer = Transfer(stream: Stream, bytes: seq<byte>)

  /**
   * `read(buf, n)`: the bytes from the position up to n or the end of the
   * file, whichever comes first. The position advances past what was read;
   * reading fewer than n bytes sets the fail bit. A stream that is not
   * healthy reads nothing and is left failed.
   */
  function Read(s: Stream, n: nat): (r: Transfer)
    ensures |r.bytes| <= n
    ensures r.stream.data == s.data && r.stream.isOpen == s.isOpen
    ensures Healthy(s) ==> r.stream.pos == s.pos + |r.bytes|
    ensures Healthy(s) && s.pos + n <= |s.data| ==> r.bytes == s.data[s.pos..s.pos + n] && !r.stream.failed
    ensures Healthy(s) && s.pos + n > |s.data| ==>
              r.bytes == (if s.pos < |s.data| then s.data[s.pos..] else []) && r.stream.failed == (n > 0)
    ensures !Healthy(s) ==> r == Transfer(s.(failed := true), [])
  {
    if !Healthy(s) then Transfer(s.(failed := true), [])
    else
      var got := if s.pos < |s.data| then s.data[s.pos..Min(s.pos + n, |s.data|)] else [];
      Transfer(s.(pos := s.pos + |got|, failed := |got| < n), got)
  }

  /** The file's bytes after writing `b` at offset `at`: a gap past the end reads as zeros. */
  function Overwrite(d: seq<byte>, at: nat, b: seq<byte>): (r: seq<byte>)
    ensures |r| == if at + |b| <= |d| then |d| else at + |b|
    ensures r[at..at + |b|] == b
    ensures forall i :: 0 <= i < at && i < |d| ==> r[i] == d[i]
    ensures forall i :: |d| <= i < at ==> r[i] == 0
    ensures forall i :: at + |b| <= i < |d| ==> r[i] == d[i]
  {
    var front := if at <= |d| then d[..at] else d + seq(at - |d|, _ => 0);
    var back := if at + |b| < |d| then d[at + |b|..] else [];
    assert (front + b + back)[at..at + |b|] == b;
    front + b + back
  }

  /**
   * `write(buf, |b|)`: on a healthy stream the bytes replace those at the
   * position (extending the file as needed) and the position moves past
   * them; otherwise nothing is written and the stream is left failed.
   */
  function Write(s: Stream, b: seq<byte>): (r: Stream)
    ensures r.isOpen == s.isOpen
    ensures Healthy(s) ==> r == s.(data := Overwrite(s.data, s.pos, b), pos := s.pos + |b|)
    ensures !Healthy(s) ==> r == s.(failed := true)
  {
    if Healthy(s) then s.(data := Overwrite(s.data, s.pos, b), pos := s.pos + |b|)
    else s.(failed := true)
  }

  /** Seeking back to where a write began and reading as many bytes returns what was written. */
  lemma {:induction false} ReadBackWrite(s: Stream, b: seq<byte>)
    requires Healthy(s)
    ensures var w := Write(s, b);
            Read(Seek(w, s.pos), |b|) == Transfer(w.(pos := s.pos + |b|), b)
  {
    var w := Write(s, b);
    assert Healthy(Seek(w, s.pos));
  }

  /** Writing from offset 0 of a healthy stream puts the bytes at the start of the file. */
  lemma {:induction false} WriteFromStart(s: Stream, b: seq<byte>)
    requires Healthy(s)
    ensures var w := Write(Seek(s, 0), b);
            |w.data| >= |b| && w.pos == |b| && w.data[..|b|] == b
  {
    var w := Write(Seek(s, 0), b);
    assert w.data[0..|b|] == b;
  }
}
