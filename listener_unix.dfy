/**
 * The stream-reader backend: `in()`, which drains standard input with
 * `fgets` into a fixed buffer, and `CClipboardListenerUnix`, which turns
 * what was read into a copy event unless it repeats the previous one.
 * Characters stand for the bytes of the stream.
 */
module ListenerUnix {
  import opened Wrappers
  import opened Events
  import HistoryStore

  /** `sizeof(characters)`, i.e. `UINT16_MAX`: fgets stores at most one less characters. */
  const BUFFER_SIZE: nat := 65535

  /**
   * Where one `fgets(buf, limit + 1, stream)` call that starts reading at
   * `pos` stops: just after a newline, after `limit` characters, or at the
   * end of the data, whichever comes first.
   */
  function LineEnd(data: string, pos: nat, limit: nat): (e: nat)
    requires pos < |data| && 1 <= limit
    ensures pos < e <= |data| && e - pos <= limit
    ensures forall j :: pos <= j < e - 1 ==> data[j] != '\n'
    ensures e < |data| ==> data[e - 1] == '\n' || e - pos == limit
    decreases limit
  {
    if data[pos] == '\n' || pos + 1 == |data| || limit == 1 then pos + 1
    else LineEnd(data, pos + 1, limit - 1)
  }

  /**
   * The characters left in the buffer once `fgets` returns NULL: every
   * successful call overwrites the previous chunk, so only the last chunk
   * read survives (`buf` when nothing more is read).
   */
  function LastChunk(data: string, pos: nat, limit: nat, buf: string): string
    requires 1 <= limit
    decreases |data| - pos
  {
    if pos >= |data| then buf
    else
      var e := LineEnd(data, pos, limit);
      LastChunk(data, e, limit, data[pos..e])
  }

  /** Drops one trailing newline, if there is one. */
  function StripNewline(s: string): (r: string)
    ensures s == r || s == r + "\n"
    ensures |s| > 0 && s[|s| - 1] == '\n' ==> |r| == |s| - 1
  {
    if s != [] && s[|s| - 1] == '\n' then s[..|s| - 1] else s
  }

  /** Only one newline is removed: a text ending in two keeps the first. */
  lemma StripOnlyOneNewline(s: string)
    ensures StripNewline(s + "\n\n") == s + "\n"
  {
    assert (s + "\n\n")[..|s| + 1] == s + "\n";
  }

  /** The part of standard input that `fgets` has not consumed yet, and its end-of-file flag. */
  class InputStream {
    var data: string
    var pos: nat
    var eof: bool

    predicate Valid()
      reads this
    {
      pos <= |data|
    }

    constructor (data: string)
      ensures Valid() && this.data == data && pos == 0 && !eof
    {
      this.data := data;
      pos := 0;
      eof := false;
    }

    /**
     * `fgets(buf, size, stream)`: reads one chunk, or returns NULL when no
     * character is left.  The end-of-file flag is raised exactly when a
     * read ran into the end of the data.
     */
    method Fgets(size: nat) returns (chunk: Option<string>)
      requires Valid() && 2 <= size
      modifies this
      ensures Valid() && data == old(data)
      ensures old(pos) == |data| ==> chunk == None && pos == old(pos) && eof
      ensures old(pos) < |data| ==>
        var e := LineEnd(data, old(pos), size - 1);
        && chunk == Some(data[old(pos)..e])
        && pos == e
        && eof == (old(eof) || (e == |data| && data[e - 1] != '\n' && e - old(pos) < size - 1))
    {
      if pos == |data| {
        eof := true;
        return None;
      }
      var e := LineEnd(data, pos, size - 1);
      chunk := Some(data[pos..e]);
      if e == |data| && data[e - 1] != '\n' && e - pos < size - 1 {
        eof := true;
      }
      pos := e;
    }
  }

  /** What `in()` returns for the stream state it starts from; None is `exit(0)`. */
  function InSpec(data: string, pos: nat, eof: bool): Option<string>
  {
    if eof then None
    else Some(StripNewline(HistoryStore.CStr(LastChunk(data, pos, BUFFER_SIZE - 1, ""))))
  }

  /**
   * `in()`: exits when standard input already reported end-of-file;
   * otherwise reads chunks until `fgets` fails and returns the last chunk
   * (up to its first NUL, as `std::string ret{characters}` reads it) with
   * one trailing newline removed.  Afterwards the stream is at its end with
   * the end-of-file flag raised, so the next call exits.
   */
  method In(stdin: InputStream) returns (r: Option<string>)
    requires stdin.Valid()
    modifies stdin
    ensures stdin.Valid() && stdin.data == old(stdin.data)
    ensures r == InSpec(old(stdin.data), old(stdin.pos), old(stdin.eof))
    ensures r.Some? ==> stdin.eof && stdin.pos == |stdin.data|
    ensures r.None? ==> stdin.pos == old(stdin.pos) && stdin.eof
  {
    if stdin.eof {
      return None;
    }
    var characters: string := "";
    var chunk := stdin.Fgets(BUFFER_SIZE);
    while chunk.Some?
      invariant stdin.Valid() && stdin.data == old(stdin.data)
      invariant chunk.None? ==> stdin.pos == |stdin.data| && stdin.eof
      invariant LastChunk(stdin.data, old(stdin.pos), BUFFER_SIZE - 1, "")
        == LastChunk(stdin.data, stdin.pos, BUFFER_SIZE - 1, if chunk.Some? then chunk.value else characters)
      decreases |stdin.data| - stdin.pos, chunk.Some?
    {
      characters := chunk.value;
      chunk := stdin.Fgets(BUFFER_SIZE);
    }
    r := Some(StripNewline(HistoryStore.CStr(characters)));
  }

  /** Whatever the buffer held before, the final chunk is a suffix of the data once anything is read. */
  lemma {:induction false} LastChunkIsSuffix(data: string, pos: nat, limit: nat, buf: string)
    requires 1 <= limit && pos < |data|
    ensures var r := LastChunk(data, pos, limit, buf);
      0 < |r| <= limit && |r| <= |data| - pos && data[|data| - |r|..] == r
    decreases |data| - pos
  {
    var e := LineEnd(data, pos, limit);
    if e < |data| {
      LastChunkIsSuffix(data, e, limit, data[pos..e]);
    }
  }

  /**
   * When the data ends with a line that starts at `q` and fits in the
   * buffer, that line is the last chunk, whatever came before it.
   */
  lemma {:induction false} LastLineWins(data: string, pos: nat, q: nat, limit: nat, buf: string)
    requires 1 <= limit && pos <= q < |data|
    requires q > pos ==> data[q - 1] == '\n'
    requires forall j :: q <= j < |data| - 1 ==> data[j] != '\n'
    requires |data| - q <= limit
    ensures LastChunk(data, pos, limit, buf) == data[q..]
    decreases |data| - pos
  {
    var e := LineEnd(data, pos, limit);
    if pos == q {
      assert e == |data|;
    } else {
      assert e <= q;
      LastLineWins(data, e, q, limit, data[pos..e]);
    }
  }

  /** Reading "a\nb" yields "b", and reading "one\ntwo\n" yields "two". */
  lemma OnlyLastLineSurvives()
    ensures InSpec("a\nb", 0, false) == Some("b")
    ensures InSpec("one\ntwo\n", 0, false) == Some("two")
  {
    LastLineWins("a\nb", 0, 2, BUFFER_SIZE - 1, "");
    assert "a\nb"[2..] == "b";
    LastLineWins("one\ntwo\n", 0, 4, BUFFER_SIZE - 1, "");
    assert "one\ntwo\n"[4..] == "two\n";
    HistoryStore.CStrWhole("two\n");
    HistoryStore.CStrWhole("b");
    assert "two\n"[..3] == "two";
  }

  /** `std::toupper` in the C locale. */
  function ToUpper(c: char): (r: char)
    ensures 'a' <= c <= 'z' ==> r as int == c as int - 32
    ensures !('a' <= c <= 'z') ==> r == c
  {
    if 'a' <= c <= 'z' then (c as int - 32) as char else c
  }

  /** `find_first_not_of(' ')`, with None for `npos`. */
  function FirstNonSpace(s: string): (p: Option<nat>)
    ensures p.None? ==> forall j :: 0 <= j < |s| ==> s[j] == ' '
    ensures p.Some? ==> p.value < |s| && s[p.value] != ' ' && forall j :: 0 <= j < p.value ==> s[j] == ' '
  {
    if s == [] then None
    else if s[0] != ' ' then Some(0)
    else match FirstNonSpace(s[1..])
      case None => None
      case Some(p) => Some(p + 1)
  }

  /** The event's `index`: the first non-space character upper-cased, or "Other". */
  function EventIndex(content: string): (index: string)
    ensures (forall j :: 0 <= j < |content| ==> content[j] == ' ') ==> index == "Other"
    ensures (exists j :: 0 <= j < |content| && content[j] != ' ') ==> |index| == 1 && index[0] != ' '
    ensures forall p :: 0 <= p < |content| && content[p] != ' ' && (forall j :: 0 <= j < p ==> content[j] == ' ') ==>
      index == [ToUpper(content[p])]
  {
    match FirstNonSpace(content)
    case None => "Other"
    case Some(p) => [ToUpper(content[p])]
  }

  /** Leading spaces are skipped and letters are upper-cased. */
  lemma EventIndexExamples()
    ensures EventIndex("  hello") == "H"
    ensures EventIndex("   ") == "Other"
    ensures EventIndex("") == "Other"
    ensures EventIndex("42") == "4"
  {
    assert FirstNonSpace("  hello") == Some(2);
  }

  /** The event a poll fires for `content` given the last content, if any. */
  function PollEvent(last: string, content: string): (e: Option<CopyEvent>)
    ensures e.None? <==> content == last
    ensures e.Some? ==> e.value.content == content && e.value.index == EventIndex(content) && e.value.savedTimeSecs == 0
  {
    if content == last then None else Some(CopyEvent(EventIndex(content), 0, content))
  }

  /** `CClipboardListenerUnix`: its callbacks and the last content it reported. */
  class Listener {
    var last: string
    const hooks: CallbackList

    constructor (hooks: CallbackList)
      ensures this.hooks == hooks && last == ""
    {
      this.hooks := hooks;
      last := "";
    }

    /** `AddCopyCallback` */
    method AddCopyCallback(cb: CallbackId)
      modifies hooks
      ensures hooks.callbacks == old(hooks.callbacks) + [cb]
      ensures hooks.trace == old(hooks.trace)
    {
      hooks.Add(cb);
    }

    /**
     * `PollClipboard`: reads standard input; a repeat of the last content
     * changes nothing, anything else goes to every callback in order and
     * becomes the last content.  `exited` stands for `exit(0)` in `in()`.
     */
    method PollClipboard(stdin: InputStream) returns (exited: bool)
      requires stdin.Valid()
      modifies this, hooks, stdin
      ensures stdin.Valid() && stdin.data == old(stdin.data)
      ensures var r := InSpec(old(stdin.data), old(stdin.pos), old(stdin.eof));
        && exited == r.None?
        && hooks.callbacks == old(hooks.callbacks)
        && (r.None? ==> last == old(last) && hooks.trace == old(hooks.trace))
        && (r.Some? ==> match PollEvent(old(last), r.value)
             case None => last == old(last) && hooks.trace == old(hooks.trace)
             case Some(e) => last == r.value && hooks.trace == old(hooks.trace) + Broadcast(hooks.callbacks, e))
      ensures stdin.eof
    {
      var r := In(stdin);
      if r.None? {
        return true;
      }
      exited := false;
      var content := r.value;
      if content == last {
        return;
      }
      var event := EmptyEvent();
      event := event.(content := content);
      var pos := FirstNonSpace(content);
      if pos.Some? {
        event := event.(index := [ToUpper(content[pos.value])]);
      } else {
        event := event.(index := "Other");
      }
      hooks.Fire(event);
      last := content;
    }
  }

  /** A fresh listener reading an empty stream fires nothing, because the last content starts empty. */
  lemma EmptyInputNeverFires()
    ensures InSpec("", 0, false) == Some("")
    ensures PollEvent("", "") == None
  {
  }

  /** Two polls in a row: the second always exits, since the first leaves the stream at end-of-file. */
  method TwoPolls(listener: Listener, stdin: InputStream) returns (first: bool, second: bool)
    requires stdin.Valid()
    modifies listener, listener.hooks, stdin
    ensures second
  {
    first := listener.PollClipboard(stdin);
    second := listener.PollClipboard(stdin);
  }
}
