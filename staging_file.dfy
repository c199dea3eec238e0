/**
 * A file one of the Wayland helpers holds a descriptor on.  The scratch file
 * is written by waypaste through `g_fd` with the newest clipboard transfer,
 * and the Wayland listener reads it back and truncates it by path; waycopy
 * keeps its buffer `temp` the same way.  The text and the descriptor's
 * offset are modelled; the modification time is supplied to the reader as
 * the result of `stat`.
 */
module StagingFile {

  /** `n` NUL bytes: what a gap left by a write past the end of a file reads as. */
  function Zeros(n: nat): (z: string)
    ensures |z| == n
    ensures forall j :: 0 <= j < n ==> z[j] == '\0'
  {
    if n == 0 then [] else Zeros(n - 1) + ['\0']
  }

  /**
   * The text of a file after writing `data` at offset `pos`: the bytes
   * before `pos` are kept, a gap past the old end reads as NUL bytes, the
   * data overwrites what was at its positions, and whatever lay beyond it
   * is kept.
   */
  function WriteAt(text: string, pos: nat, data: string): (r: string)
    ensures |r| == if pos + |data| > |text| then pos + |data| else |text|
    ensures forall j :: 0 <= j < pos && j < |text| ==> r[j] == text[j]
    ensures forall j :: |text| <= j < pos ==> r[j] == '\0'
    ensures forall j :: 0 <= j < |data| ==> r[pos + j] == data[j]
    ensures forall j :: pos + |data| <= j < |text| ==> r[j] == text[j]
  {
    var head := if pos <= |text| then text[..pos] else text + Zeros(pos - |text|);
    var tail := if pos + |data| < |text| then text[pos + |data|..] else [];
    head + data + tail
  }

  /** Writing into an empty file at offset `pos` leaves `pos` NUL bytes before the data. */
  lemma WriteIntoEmpty(pos: nat, data: string)
    ensures WriteAt([], pos, data) == Zeros(pos) + data
  {
    var empty: string := [];
    var head := if pos <= |empty| then empty[..pos] else empty + Zeros(pos - |empty|);
    assert head == Zeros(pos) by {
      if pos == 0 {
        assert empty[..0] == [] == Zeros(0);
      } else {
        assert empty + Zeros(pos) == Zeros(pos);
      }
    }
    assert WriteAt(empty, pos, data) == head + data + [];
  }

  /** What a read from offset `pos` to the end of the file yields: nothing when `pos` is at or past the end. */
  function ReadFrom(text: string, pos: nat): (r: string)
    ensures pos <= |text| ==> text[..pos] + r == text
    ensures pos >= |text| ==> r == []
  {
    if pos <= |text| then text[pos..] else []
  }

  class ScratchFile {
    var text: string
    /** The offset of the descriptor the helper holds on the file (`g_fd` in waypaste, `temp` in waycopy): where its next read or write starts. */
    var pos: nat

    /** `mkstemp`: a new empty file, opened at offset 0 and without `O_APPEND`. */
    constructor ()
      ensures text == [] && pos == 0
    {
      text := [];
      pos := 0;
    }

    /** `ftruncate(g_fd, 0)` / `truncate(path, 0)`: the file is emptied, and no descriptor's offset moves. */
    method Truncate()
      modifies this
      ensures text == [] && pos == old(pos)
    {
      text := [];
    }

    /** `lseek(fd, 0, SEEK_SET)` */
    method Rewind()
      modifies this
      ensures text == old(text) && pos == 0
    {
      pos := 0;
    }

    /** `copyfd(fd, out)`: everything from the offset to the end is read, and the offset moves to the end. */
    method ReadToEnd() returns (data: string)
      modifies this
      ensures data == ReadFrom(old(text), old(pos))
      ensures text == old(text)
      ensures pos == if old(pos) <= |text| then |text| else old(pos)
    {
      data := ReadFrom(text, pos);
      if pos <= |text| {
        pos := |text|;
      }
    }

    /** `copyfd(in, fd)`: everything read from the pipe is written at the offset, which advances past it. */
    method Write(data: string)
      modifies this
      ensures text == WriteAt(old(text), old(pos), data)
      ensures pos == old(pos) + |data|
    {
      text := WriteAt(text, pos, data);
      pos := pos + |data|;
    }
  }
}
