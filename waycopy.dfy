/**
 * The copy helper waycopy: the path of its temporary buffer,
 * built in a `char[PATH_MAX]` from TMPDIR, the `running` flag the
 * cancellation handlers clear, and the checks `main_waycopy` makes before
 * it offers the data.
 */
module Waycopy {
  import opened Wrappers
  import opened StagingFile

  /** `PATH_MAX` on Linux: the size of the `path` buffer, terminating NUL included. */
  const PATH_MAX: nat := 4096

  /** The `mkstemp` template appended to the directory. */
  const TEMPNAME: string := "/waycopy-buffer-XXXXXX"

  /** The directory used when TMPDIR is unset. */
  const DEFAULT_DIR: string := "/tmp"

  /** The result of building the path: the fatal "too long" exit, a write past the buffer, or the path. */
  datatype PathOutcome = TooLong | Overflow | Path(path: string)

  /**
   * Copying `dir` into a zeroed `char path[PATH_MAX]` and then appending the
   * template with `strncat` bounded by `PATH_MAX - 1`.  The `strncat` bound is not the space left in
   * the buffer, so the characters and the closing NUL are written wherever
   * they fall; None when one of those writes falls past the end.
   */
  method CopyIntoBuffer(dir: string) returns (r: Option<string>)
    requires |dir| < PATH_MAX
    ensures r.None? <==> |dir| + |TEMPNAME| + 1 > PATH_MAX
    ensures r.Some? ==> r.value == dir + TEMPNAME
  {
    var path := new char[PATH_MAX](_ => '\0');
    for k := 0 to |dir|
      invariant path[..k] == dir[..k]
    {
      path[k] := dir[k];
    }
    path[|dir|] := '\0';
    var n := |dir|;
    for k := 0 to |TEMPNAME|
      invariant n == |dir| + k
      invariant n <= PATH_MAX
      invariant path[..|dir|] == dir && path[|dir|..n] == TEMPNAME[..k]
    {
      if n == PATH_MAX {
        return None;
      }
      path[n] := TEMPNAME[k];
      n := n + 1;
    }
    if n == PATH_MAX {
      return None;
    }
    path[n] := '\0';
    assert path[..n] == path[..|dir|] + path[|dir|..n];
    r := Some(path[..n]);
  }

  /** The path as lines 70-81 build it: the length check rejects TMPDIR only when it is longer than `PATH_MAX - strlen(tempname)`. */
  function PathAsWritten(tmpdir: Option<string>): PathOutcome
  {
    var dir := if tmpdir.Some? then tmpdir.value else DEFAULT_DIR;
    if tmpdir.Some? && |dir| > PATH_MAX - |TEMPNAME| then TooLong
    else if |dir| + |TEMPNAME| + 1 > PATH_MAX then Overflow
    else Path(dir + TEMPNAME)
  }

  /** The path with the check evidently intended: room must be left for the closing NUL. */
  function PathCorrected(tmpdir: Option<string>): PathOutcome
  {
    var dir := if tmpdir.Some? then tmpdir.value else DEFAULT_DIR;
    if tmpdir.Some? && |dir| >= PATH_MAX - |TEMPNAME| then TooLong
    else Path(dir + TEMPNAME)
  }

  /** `main_waycopy`'s path building as written. */
  method BuildPathAsWritten(tmpdir: Option<string>) returns (r: PathOutcome)
    ensures r == PathAsWritten(tmpdir)
  {
    var dir := DEFAULT_DIR;
    if tmpdir.Some? {
      if |tmpdir.value| > PATH_MAX - |TEMPNAME| {
        return TooLong;
      }
      dir := tmpdir.value;
    }
    var built := CopyIntoBuffer(dir);
    r := if built.Some? then Path(built.value) else Overflow;
  }

  /** `main_waycopy`'s path building with the corrected check. */
  method BuildPath(tmpdir: Option<string>) returns (r: PathOutcome)
    ensures r == PathCorrected(tmpdir)
  {
    var dir := DEFAULT_DIR;
    if tmpdir.Some? {
      if |tmpdir.value| >= PATH_MAX - |TEMPNAME| {
        return TooLong;
      }
      dir := tmpdir.value;
    }
    var built := CopyIntoBuffer(dir);
    r := if built.Some? then Path(built.value) else Overflow;
  }

  /**
   * As written, exactly one TMPDIR length gets past the check and still
   * overflows: 4074 characters, whose path needs 4097 bytes with its NUL.
   */
  lemma AsWrittenOverflow(tmpdir: string)
    ensures PathAsWritten(Some(tmpdir)) == Overflow <==> |tmpdir| == PATH_MAX - |TEMPNAME|
    ensures |tmpdir| == 4074 ==> PathAsWritten(Some(tmpdir)) == Overflow
  {
    assert |TEMPNAME| == 22;
  }

  /**
   * With the corrected check no write leaves the buffer: the outcome is
   * the fatal exit or a path that fits with its NUL, and the two checks
   * agree on every other TMPDIR and when TMPDIR is unset.
   */
  lemma CorrectedFits(tmpdir: Option<string>)
    ensures PathCorrected(tmpdir) != Overflow
    ensures PathCorrected(tmpdir).Path? ==> |PathCorrected(tmpdir).path| + 1 <= PATH_MAX
    ensures tmpdir.Some? && |tmpdir.value| > PATH_MAX - |TEMPNAME| ==> PathCorrected(tmpdir) == TooLong
    ensures PathAsWritten(tmpdir) != Overflow ==> PathAsWritten(tmpdir) == PathCorrected(tmpdir)
  {
    assert |TEMPNAME| == 22;
  }

  /** With TMPDIR unset the buffer lives in /tmp. */
  lemma DefaultPath()
    ensures PathCorrected(None) == PathAsWritten(None) == Path("/tmp/waycopy-buffer-XXXXXX")
  {
    assert DEFAULT_DIR + TEMPNAME == "/tmp/waycopy-buffer-XXXXXX";
  }

  /**
   * `data_source_send_*` as written: `temp` is rewound and `copyfd(fd, temp)`,
   * whose first argument is the descriptor read from, copies from the
   * requester's descriptor `fd` (yielding `got`) over the start of the
   * buffer.  The result is what the requester receives and the new buffer.
   */
  function SendAsWritten(buffer: string, got: string): (string, string)
  {
    ([], WriteAt(buffer, 0, got))
  }

  /**
   * As written, a paste request receives nothing, whatever the buffer holds;
   * the buffer keeps its length and is overwritten from the start by what
   * the requester's descriptor yields, and is unchanged when it yields nothing.
   */
  lemma AsWrittenSendsNothing(buffer: string, got: string)
    ensures SendAsWritten(buffer, got).0 == []
    ensures buffer != [] ==> SendAsWritten(buffer, got).0 != buffer
    ensures |got| <= |buffer| ==> |SendAsWritten(buffer, got).1| == |buffer|
    ensures got == [] ==> SendAsWritten(buffer, got).1 == buffer
  {
    if got == [] {
      assert WriteAt(buffer, 0, got) == buffer;
    }
  }

  /**
   * Copying the input into `temp` leaves its offset at the end, so a send
   * that did not rewind first would read nothing; from offset 0 it reads
   * the whole input.
   */
  lemma RewindNeeded(input: string)
    ensures ReadFrom(WriteAt([], 0, input), |input|) == []
    ensures ReadFrom(WriteAt([], 0, input), 0) == input
  {
    WriteIntoEmpty(0, input);
    assert Zeros(0) + input == input;
  }

  /** What `main_waycopy` ends with: a fatal `wc_die`, or a return with the value of `running`. */
  datatype MainOutcome = Fatal(reason: string) | Returned(running: bool)

  /** Which selection the data source was set on. */
  datatype Offered = Regular | PrimarySel

  /** The globals of waycopy.c: `running`, the buffer `temp`, and where the source was offered. */
  class Copier {
    var running: bool
    /** Whether the `temp` descriptor is open. */
    var tempOpen: bool
    /** The buffer file `temp`: its text and the descriptor's offset. */
    var temp: ScratchFile
    var offered: Option<Offered>

    constructor ()
      ensures running && !tempOpen && temp.text == [] && temp.pos == 0 && offered.None?
    {
      running := true;
      tempOpen := false;
      temp := new ScratchFile();
      offered := None;
    }

    /** `data_source_cancelled_zwlr` / `data_source_cancelled_wl`: another client took the selection. */
    method DataSourceCancelled()
      modifies this
      ensures !running && !tempOpen
      ensures temp == old(temp) && offered == old(offered)
    {
      running := false;
      tempOpen := false;
    }

    /**
     * `data_source_send_zwlr` / `data_source_send_wl` as written: `got` is
     * what reading the requester's descriptor yields.
     */
    method DataSourceSendAsWritten(got: string) returns (sent: string)
      modifies temp
      ensures (sent, temp.text) == SendAsWritten(old(temp.text), got)
      ensures temp.pos == |got|
    {
      temp.Rewind();
      temp.Write(got);
      sent := [];
    }

    /**
     * `data_source_send_*` with the evidently intended `copyfd(temp, fd)`:
     * `temp` is rewound and read to its end, so the requester is sent the
     * whole buffer, from its start, wherever the offset stood before.
     */
    method DataSourceSend() returns (sent: string)
      modifies temp
      ensures sent == old(temp.text)
      ensures temp.text == old(temp.text) && temp.pos == |temp.text|
    {
      temp.Rewind();
      sent := temp.ReadToEnd();
      assert temp.text[..0] + sent == temp.text;
    }

    /**
     * `main_waycopy`, with the path built by the corrected check.  It is
     * fatal when TMPDIR is too long, when no seat is bound, and unless both
     * the wlr and the core data-device managers are bound; otherwise the
     * data is kept in the buffer, offered on the wlr device (the regular or
     * the primary selection) and the value of `running` is returned.
     */
    method MainWaycopy(tmpdir: Option<string>, input: string, seatBound: bool, zwlrBound: bool, wlBound: bool, primary: bool)
      returns (r: MainOutcome)
      modifies this
      ensures PathCorrected(tmpdir) == TooLong ==> r == Fatal("TMPDIR has too long of a path")
      ensures PathCorrected(tmpdir) != TooLong && !seatBound ==> r == Fatal("failed to bind to seat interface")
      ensures PathCorrected(tmpdir) != TooLong && seatBound && !(zwlrBound && wlBound) ==>
        r == Fatal("failed to bind to data_control_manager interface")
      ensures r.Returned? <==> PathCorrected(tmpdir) != TooLong && seatBound && zwlrBound && wlBound
      ensures r.Returned? ==> r.running == old(running) && running == old(running)
      ensures r.Returned? ==> fresh(temp) && temp.text == input && temp.pos == |input| && tempOpen
      ensures r.Returned? ==> offered == Some(if primary then PrimarySel else Regular)
    {
      var path := BuildPath(tmpdir);
      if path.TooLong? {
        return Fatal("TMPDIR has too long of a path");
      }
      temp := new ScratchFile();
      tempOpen := true;
      temp.Write(input);
      WriteIntoEmpty(0, input);
      assert Zeros(0) + input == input;
      if !seatBound {
        return Fatal("failed to bind to seat interface");
      }
      if !zwlrBound || !wlBound {
        return Fatal("failed to bind to data_control_manager interface");
      }
      offered := Some(if primary then PrimarySel else Regular);
      return Returned(running);
    }
  }
}
