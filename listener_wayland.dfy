/**
 * The Wayland backend `CClipboardListenerWayland`: building the path of its
 * scratch file from TMPDIR, and a poll that reads the file when its
 * modification time has advanced, normalises the trailing newline, reports
 * new non-empty content and empties the file.
 */
module ListenerWayland {
  import opened Wrappers
  import opened Events
  import opened StagingFile
  import ListenerUnix

  /** `PATH_MAX` on Linux. */
  const PATH_MAX: nat := 4096

  /** The `mkstemp` template appended to the directory. */
  const TEMPNAME: string := "/clippyman-buffer-XXXXXX"

  /**
   * The scratch path of the constructor: TMPDIR followed by the template,
   * fatal (None) when TMPDIR is longer than `PATH_MAX - strlen(tempname)`,
   * and the bare template, a file in the root directory, when TMPDIR is unset.
   */
  function ScratchPath(tmpdir: Option<string>): (r: Option<string>)
    ensures tmpdir.None? ==> r == Some(TEMPNAME)
    ensures tmpdir.Some? && |tmpdir.value| > PATH_MAX - |TEMPNAME| ==> r.None?
    ensures tmpdir.Some? && |tmpdir.value| <= PATH_MAX - |TEMPNAME| ==> r == Some(tmpdir.value + TEMPNAME)
    ensures r.Some? ==> |r.value| <= PATH_MAX
  {
    if tmpdir.None? then Some(TEMPNAME)
    else if |tmpdir.value| > PATH_MAX - |TEMPNAME| then None
    else Some(tmpdir.value + TEMPNAME)
  }

  /** The index of the first newline at or after `pos`, or the end of the text. */
  function NextNewline(text: string, pos: nat): (e: nat)
    requires pos <= |text|
    ensures pos <= e <= |text|
    ensures e < |text| ==> text[e] == '\n'
    ensures forall j :: pos <= j < e ==> text[j] != '\n'
    decreases |text| - pos
  {
    if pos == |text| || text[pos] == '\n' then pos else NextNewline(text, pos + 1)
  }

  /**
   * The `std::getline` loop: every line of the file followed by a newline.
   * That is the text itself, with a newline added when its last line has none.
   */
  method JoinLines(text: string) returns (joined: string)
    ensures joined == if text == [] || text[|text| - 1] == '\n' then text else text + "\n"
  {
    joined := "";
    var pos := 0;
    while pos < |text|
      invariant pos <= |text|
      invariant joined == text[..pos] || (pos == |text| > 0 && text[|text| - 1] != '\n' && joined == text + "\n")
      invariant joined == text[..pos] ==> pos == 0 || text[pos - 1] == '\n'
      decreases |text| - pos
    {
      var e := NextNewline(text, pos);
      var line := text[pos..e];
      assert joined == text[..pos];
      joined := joined + line + "\n";
      if e < |text| {
        assert text[..e + 1] == text[..pos] + text[pos..e] + "\n";
        pos := e + 1;
      } else {
        assert text[..pos] + text[pos..e] == text;
        pos := |text|;
      }
    }
    if joined == text[..pos] {
      assert text[..pos] == text;
    }
  }

  /** The content a poll reports for the file text: exactly the text with at most one trailing newline removed. */
  lemma JoinedContent(text: string)
    ensures var joined := if text == [] || text[|text| - 1] == '\n' then text else text + "\n";
      ListenerUnix.StripNewline(joined) == ListenerUnix.StripNewline(text)
  {
    if text != [] && text[|text| - 1] != '\n' {
      assert (text + "\n")[..|text|] == text;
    }
  }

  /** The recorded modification time after one poll that saw `stat` (None: `stat` failed). */
  function Recorded(lastTime: int, stat: Option<int>): (t: int)
    ensures t >= lastTime
    ensures stat.Some? && stat.value > lastTime ==> t == stat.value
    ensures !(stat.Some? && stat.value > lastTime) ==> t == lastTime
  {
    if stat.Some? && stat.value > lastTime then stat.value else lastTime
  }

  /** The recorded time after a run of polls. */
  function RecordedAfter(lastTime: int, stats: seq<Option<int>>): int
    decreases |stats|
  {
    if stats == [] then lastTime else RecordedAfter(Recorded(lastTime, stats[0]), stats[1..])
  }

  /**
   * Over any run of polls the recorded time never decreases, and ends at
   * least as late as every modification time a poll saw.
   */
  lemma {:induction false} RecordedIsMaximum(lastTime: int, stats: seq<Option<int>>)
    ensures RecordedAfter(lastTime, stats) >= lastTime
    ensures forall j :: 0 <= j < |stats| && stats[j].Some? ==> RecordedAfter(lastTime, stats) >= stats[j].value
    decreases |stats|
  {
    if stats != [] {
      var t := Recorded(lastTime, stats[0]);
      RecordedIsMaximum(t, stats[1..]);
      forall j | 0 <= j < |stats| && stats[j].Some?
        ensures RecordedAfter(lastTime, stats) >= stats[j].value
      {
        if j > 0 {
          assert stats[1..][j - 1] == stats[j];
        }
      }
    }
  }

  /** `CClipboardListenerWayland`, with the fields its header leaves out. */
  class Listener {
    const hooks: CallbackList
    /** `m_path` */
    const path: string
    /** `m_options.primary`, handed on to `main_waycopy`. */
    const primary: bool
    /** `m_lastModifiedFileTime` */
    var lastModifiedFileTime: int
    /** `m_LastClipboardContent` */
    var last: string

    constructor (hooks: CallbackList, path: string, primary: bool)
      ensures this.hooks == hooks && this.path == path && this.primary == primary
      ensures lastModifiedFileTime == 0 && last == ""
    {
      this.hooks := hooks;
      this.path := path;
      this.primary := primary;
      lastModifiedFileTime := 0;
      last := "";
    }

    /** `AddCopyCallback` */
    method AddCopyCallback(cb: CallbackId)
      modifies hooks
      ensures hooks.callbacks == old(hooks.callbacks) + [cb]
      ensures hooks.trace == old(hooks.trace)
    {
      hooks.Add(cb);
    }

    /**
     * `PollClipboard`, given what `stat` reports for the file's
     * modification time.  A failed `stat` or a time no later than the
     * recorded one changes nothing.  Otherwise the time is recorded, the
     * text (less one trailing newline) is reported if it is non-empty and
     * new, and the file is truncated in either case.
     */
    method PollClipboard(file: ScratchFile, stat: Option<int>)
      modifies this, hooks, file
      ensures lastModifiedFileTime == Recorded(old(lastModifiedFileTime), stat)
      ensures hooks.callbacks == old(hooks.callbacks)
      ensures !(stat.Some? && stat.value > old(lastModifiedFileTime)) ==>
        last == old(last) && hooks.trace == old(hooks.trace) && file.text == old(file.text)
      ensures file.pos == old(file.pos)
      ensures stat.Some? && stat.value > old(lastModifiedFileTime) ==>
        var content := ListenerUnix.StripNewline(old(file.text));
        && file.text == []
        && (content != old(last) && content != [] ==>
              last == content && hooks.trace == old(hooks.trace) + Broadcast(hooks.callbacks, EmptyEvent().(content := content)))
        && (content == old(last) || content == [] ==> last == old(last) && hooks.trace == old(hooks.trace))
    {
      if stat.None? {
        return;
      }
      if stat.value <= lastModifiedFileTime {
        return;
      }
      lastModifiedFileTime := stat.value;
      var clipboardContent := JoinLines(file.text);
      JoinedContent(file.text);
      clipboardContent := ListenerUnix.StripNewline(clipboardContent);
      if clipboardContent != last && clipboardContent != [] {
        var event := EmptyEvent();
        event := event.(content := clipboardContent);
        hooks.Fire(event);
        last := clipboardContent;
      }
      file.Truncate();
    }
  }

  /**
   * The constructor's path and listener: fatal (None) when TMPDIR is too
   * long, otherwise a listener whose path is `ScratchPath(tmpdir)`.
   */
  method NewListener(hooks: CallbackList, tmpdir: Option<string>, primary: bool) returns (r: Option<Listener>)
    ensures r.None? <==> ScratchPath(tmpdir).None?
    ensures r.Some? ==> fresh(r.value) && r.value.path == ScratchPath(tmpdir).value && r.value.hooks == hooks
    ensures r.Some? ==> r.value.last == "" && r.value.lastModifiedFileTime == 0
  {
    var path: string := "";
    if tmpdir.Some? {
      if |tmpdir.value| > PATH_MAX - |TEMPNAME| {
        return None;
      }
      path := tmpdir.value;
    }
    path := path + TEMPNAME;
    assert tmpdir.None? ==> path == TEMPNAME;
    var listener := new Listener(hooks, path, primary);
    return Some(listener);
  }
}
