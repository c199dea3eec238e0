/**
 * The X11 backend: the filter `CClipboardListenerX11::PollClipboard`
 * applies to the text it reads from the clipboard property, and the
 * `runInBg` loop that serves selection requests after a copy.  The xcb
 * calls are replaced by their results: the property read by a poll, and
 * the sequence of events the server delivers to `runInBg`.
 */
module ListenerX11 {
  import opened Wrappers
  import opened Events
  import HistoryStore

  predicate AllSpaces(s: string)
  {
    forall j :: 0 <= j < |s| ==> s[j] == ' '
  }

  predicate HasNul(s: string)
  {
    exists j :: 0 <= j < |s| && s[j] == '\0'
  }

  /** The text with every NUL byte removed, other bytes kept in order. */
  function RemoveNuls(s: string): (r: string)
    ensures !HasNul(r)
    ensures |r| <= |s|
  {
    if s == [] then []
    else
      var init := RemoveNuls(s[..|s| - 1]);
      if s[|s| - 1] != '\0' then init + [s[|s| - 1]] else init
  }

  /** Removing NULs from a text that has none changes nothing. */
  lemma {:induction false} RemoveNulsKeepsPlainText(s: string)
    requires !HasNul(s)
    ensures RemoveNuls(s) == s
    decreases |s|
  {
    if s != [] {
      var init := s[..|s| - 1];
      assert !HasNul(init) by {
        forall j | 0 <= j < |init|
          ensures init[j] != '\0'
        {
          assert init[j] == s[j];
        }
      }
      RemoveNulsKeepsPlainText(init);
      assert s == init + [s[|s| - 1]];
    }
  }

  /** Removing NULs distributes over concatenation. */
  lemma {:induction false} RemoveNulsConcat(s: string, t: string)
    ensures RemoveNuls(s + t) == RemoveNuls(s) + RemoveNuls(t)
    decreases |t|
  {
    if t == [] {
      assert s + t == s;
    } else {
      var t' := t[..|t| - 1];
      assert (s + t)[..|s + t| - 1] == s + t';
      assert (s + t)[|s + t| - 1] == t[|t| - 1];
      RemoveNulsConcat(s, t');
    }
  }

  /**
   * The filter of lines 159-177: the text a poll delivers for the text it
   * read, given the last delivered text, or None for "skip to the end".
   */
  function PollFilter(content: string, last: string): Option<string>
  {
    if content == last then None
    else if AllSpaces(content) then None
    else if content[0] == '\0' then
      var stripped := RemoveNuls(content);
      if stripped == last then None else Some(stripped)
    else Some(content)
  }

  /** A delivered text always differs from the last one, so the same text is never delivered twice in a row. */
  lemma FilterNeverRepeats(content: string, last: string)
    ensures PollFilter(content, last).Some? ==> PollFilter(content, last).value != last
    ensures content == last ==> PollFilter(content, last).None?
  {
  }

  /** Text made only of spaces, the empty text included, is never delivered as read. */
  lemma FilterRejectsBlank(content: string, last: string)
    requires AllSpaces(content)
    ensures PollFilter(content, last).None?
  {
  }

  /**
   * Only a leading NUL triggers the stripping: text that starts with
   * another byte is delivered as read, embedded NULs included.
   */
  lemma FilterKeepsEmbeddedNuls(content: string, last: string)
    requires content != last && !AllSpaces(content) && content[0] != '\0'
    ensures PollFilter(content, last) == Some(content)
  {
  }

  /** With a leading NUL, all NULs go and the stripped text is compared with the last text again. */
  lemma FilterStripsLeadingNul(content: string, last: string)
    requires |content| > 0 && content[0] == '\0' && content != last
    ensures PollFilter(content, last) ==
      (if RemoveNuls(content) == last then None else Some(RemoveNuls(content)))
  {
    assert !AllSpaces(content);
  }

  /** "\0ab\0" after "x" delivers "ab"; after "ab" it delivers nothing. */
  lemma FilterStripExample()
    ensures PollFilter("\0ab\0", "x") == Some("ab")
    ensures PollFilter("\0ab\0", "ab") == None
  {
    var s := "\0ab\0";
    assert s[..3] == "\0ab" && s[..3][..2] == "\0a" && s[..3][..2][..1] == "\0" && s[..3][..2][..1][..0] == "";
    assert RemoveNuls("\0") == "";
    assert RemoveNuls("\0a") == "a";
    assert RemoveNuls("\0ab") == "ab";
    assert RemoveNuls(s) == "ab";
    assert s[0] == '\0' && s[1] != ' ';
  }

  /**
   * The text is read from the property as a C string, so it holds no NUL,
   * and the stripping branch can only be reached by text that is not
   * blank: the filter reduces to "not a repeat and not blank".
   */
  lemma CStringFilter(bytes: string, last: string)
    ensures var content := HistoryStore.CStr(bytes);
      PollFilter(content, last) == (if content == last || AllSpaces(content) then None else Some(content))
  {
    var content := HistoryStore.CStr(bytes);
    if content != last && !AllSpaces(content) {
      assert content[0] != '\0';
    }
  }

  /**
   * The event built from the property text as line 156 writes it: the
   * brace-init fills the first member, `index`, and leaves `content` empty.
   */
  function ReadEventAsWritten(text: string): (e: CopyEvent)
    ensures e.content == [] && e.index == text
  {
    CopyEvent(text, 0, [])
  }

  /** The event as evidently intended: the property text is its `content`. */
  function ReadEvent(text: string): (e: CopyEvent)
    ensures e.content == text && e.index == []
  {
    CopyEvent([], 0, text)
  }

  /** The texts a run of polls delivers, one property read after another, starting from `last`. */
  function Deliveries(read: string -> CopyEvent, last: string, polls: seq<string>): seq<string>
    decreases |polls|
  {
    if polls == [] then []
    else match PollFilter(read(polls[0]).content, last)
      case None => Deliveries(read, last, polls[1..])
      case Some(t) => [t] + Deliveries(read, t, polls[1..])
  }

  /**
   * As written, the event's `content` is always empty, which equals the
   * initial last content, so no poll ever delivers anything, whatever the
   * clipboard holds.
   */
  lemma {:induction false} AsWrittenNeverDelivers(polls: seq<string>)
    ensures Deliveries(ReadEventAsWritten, [], polls) == []
    decreases |polls|
  {
    if polls != [] {
      AsWrittenNeverDelivers(polls[1..]);
    }
  }

  /** With the content filled in, a first copy of "hello" is delivered. */
  lemma CorrectedDelivers()
    ensures Deliveries(ReadEventAsWritten, [], ["hello"]) == []
    ensures Deliveries(ReadEvent, [], ["hello"]) == ["hello"]
  {
    assert ["hello"][1..] == [];
  }

  /** What one poll observes: no event, an xcb error (fatal), or the property text. */
  datatype PropertyRead = NoEvent | ReadError(code: nat) | Value(text: string)

  /** `CClipboardListenerX11`: its callbacks and the last content it delivered. */
  class Listener {
    var last: string
    const hooks: CallbackList

    constructor (hooks: CallbackList)
      ensures this.hooks == hooks && last == ""
    {
      this.hooks := hooks;
      last := "";
    }

    /** `AddCopyCallback` */
    method AddCopyCallback(cb: CallbackId)
      modifies hooks
      ensures hooks.callbacks == old(hooks.callbacks) + [cb]
      ensures hooks.trace == old(hooks.trace)
    {
      hooks.Add(cb);
    }

    /**
     * `PollClipboard`, with the event built as intended (`ReadEvent`):
     * a delivered text becomes the last content and goes to every callback
     * in registration order; anything the filter rejects changes nothing.
     * `died` stands for the `die` on an xcb error.
     */
    method PollClipboard(read: PropertyRead) returns (died: bool)
      modifies this, hooks
      ensures died <==> read.ReadError?
      ensures hooks.callbacks == old(hooks.callbacks)
      ensures !read.Value? ==> last == old(last) && hooks.trace == old(hooks.trace)
      ensures read.Value? ==> match PollFilter(ReadEvent(read.text).content, old(last))
        case None => last == old(last) && hooks.trace == old(hooks.trace)
        case Some(t) => last == t && hooks.trace == old(hooks.trace) + Broadcast(hooks.callbacks, ReadEvent(read.text).(content := t))
    {
      died := false;
      match read
      case NoEvent =>
        return;
      case ReadError(_) =>
        return true;
      case Value(text) =>
        var event := ReadEvent(text);
        if event.content == last || AllSpaces(event.content) {
          return;
        }
        if event.content[0] == '\0' {
          var tmp := event.content;
          var stripped: string := [];
          for k := 0 to |tmp|
            invariant stripped == RemoveNuls(tmp[..k])
          {
            assert tmp[..k + 1][..k] == tmp[..k];
            if tmp[k] != '\0' {
              stripped := stripped + [tmp[k]];
            }
          }
          assert tmp[..|tmp|] == tmp;
          event := event.(content := stripped);
          if event.content == last {
            return;
          }
        }
        last := event.content;
        hooks.Fire(event);
    }
  }

  // ---------------------------------------------------------------------
  // runInBg: serving the selection after a copy
  // ---------------------------------------------------------------------

  const SELECTION_CLEAR: nat := 29
  const SELECTION_REQUEST: nat := 30
  const SELECTION_NOTIFY: nat := 31
  /** `XCB_NONE` */
  const NONE: nat := 0

  type Atom = nat
  type Window = nat

  /**
   * An event from `xcb_wait_for_event`: NULL, or an event whose fields are
   * read as a selection notify or a selection request depending on its type.
   */
  datatype XEvent =
    | Null
    | XEvent(responseType: nat, requestor: Window, selection: Atom, target: Atom, property: Atom, time: nat)

  /** `response_type & ~0x80`: the event code without the "sent by a client" bit. */
  function Kind(responseType: nat): (k: nat)
    requires responseType < 256
    ensures k < 128 && (k == responseType || k + 128 == responseType)
  {
    responseType % 128
  }

  datatype Action = Ignore | Stop | Serve

  /** How the loop treats one event. */
  function Classify(e: XEvent, selection: Atom, target: Atom): Action
  {
    match e
    case Null => Ignore
    case XEvent(rt, _, sel, tgt, prop, _) =>
      var k := rt % 128;
      if k == SELECTION_CLEAR then Stop
      else if k == SELECTION_NOTIFY then (if sel == selection && prop == NONE then Stop else Ignore)
      else if k == SELECTION_REQUEST then (if tgt == target then Serve else Ignore)
      else Ignore
  }

  /** A synthetic event (bit 0x80 set) is treated exactly like the one the server generated. */
  lemma SentEventsAlike(e: XEvent, selection: Atom, target: Atom)
    requires e.XEvent? && e.responseType < 128
    ensures Classify(e.(responseType := e.responseType + 128), selection, target) == Classify(e, selection, target)
  {
  }

  /** The loop stops on a selection clear and on a lost-ownership notify, and serves only requests for its target. */
  lemma ClassifyCases(e: XEvent, selection: Atom, target: Atom)
    requires e.XEvent? && e.responseType < 256
    ensures Kind(e.responseType) == SELECTION_CLEAR ==> Classify(e, selection, target) == Stop
    ensures Classify(e, selection, target) == Serve <==>
      Kind(e.responseType) == SELECTION_REQUEST && e.target == target
    ensures Kind(e.responseType) == SELECTION_NOTIFY ==>
      (Classify(e, selection, target) == Stop <==> e.selection == selection && e.property == NONE)
    ensures Kind(e.responseType) !in {SELECTION_CLEAR, SELECTION_NOTIFY, SELECTION_REQUEST} ==>
      Classify(e, selection, target) == Ignore
  {
  }

  /** The notify event sent back to a requestor. */
  datatype Notify = Notify(responseType: nat, requestor: Window, selection: Atom, target: Atom, property: Atom, time: nat)

  /** The `xcb_change_property` write on the requestor, with the notify that follows it. */
  datatype Reply = Reply(window: Window, property: Atom, propertyType: Atom, format: nat, data: string, notify: Notify)

  /** How the loop ended: a stop at an event, an answer to a request, or still waiting when the events ran out. */
  datatype BgOutcome = Stopped(at: nat) | Served(at: nat, reply: Reply) | Waiting

  /**
   * The answer to a matching request: the whole buffer written as 8-bit
   * data of the target type to our property on the requestor, then a
   * notify carrying the request's requestor, selection, target and time.
   */
  function ReplyTo(request: XEvent, property: Atom, str: string): (r: Reply)
    requires request.XEvent?
    ensures r.window == request.requestor && r.property == property && r.propertyType == request.target
    ensures r.format == 8 && r.data == str
    ensures r.notify == Notify(SELECTION_NOTIFY, request.requestor, request.selection, request.target, property, request.time)
  {
    var notify := Notify(SELECTION_NOTIFY, request.requestor, request.selection, request.target, property, request.time);
    Reply(request.requestor, property, request.target, 8, str, notify)
  }

  /**
   * `runInBg`: waits for events, skipping the ignored ones, until the
   * first one that stops or is served.  The outcome names that event, and
   * every earlier event was ignored.
   */
  method RunInBg(events: seq<XEvent>, selection: Atom, target: Atom, property: Atom, str: string)
    returns (outcome: BgOutcome)
    ensures outcome.Stopped? ==>
      outcome.at < |events| && Classify(events[outcome.at], selection, target) == Stop
    ensures outcome.Served? ==>
      && outcome.at < |events| && Classify(events[outcome.at], selection, target) == Serve
      && outcome.reply == ReplyTo(events[outcome.at], property, str)
    ensures outcome.Waiting? ==> forall j :: 0 <= j < |events| ==> Classify(events[j], selection, target) == Ignore
    ensures !outcome.Waiting? ==> forall j :: 0 <= j < outcome.at ==> Classify(events[j], selection, target) == Ignore
  {
    var n := 0;
    while n < |events|
      invariant n <= |events|
      invariant forall j :: 0 <= j < n ==> Classify(events[j], selection, target) == Ignore
    {
      var event := events[n];
      if event.Null? {
        n := n + 1;
        continue;
      }
      var kind := event.responseType % 128;
      if kind == SELECTION_CLEAR {
        return Stopped(n);
      } else if kind == SELECTION_NOTIFY {
        if event.selection == selection && event.property == NONE {
          return Stopped(n);
        }
      } else if kind == SELECTION_REQUEST {
        if event.target == target {
          var notify := Notify(SELECTION_NOTIFY, event.requestor, event.selection, event.target, property, event.time);
          return Served(n, Reply(event.requestor, property, event.target, 8, str, notify));
        }
      }
      n := n + 1;
    }
    return Waiting;
  }

  /** Requests for another target are skipped: the first request for our target is the one answered. */
  method ServesFirstMatchingRequest(selection: Atom, target: Atom, other: Atom, property: Atom, str: string)
    returns (outcome: BgOutcome)
    requires other != target
    ensures outcome == Served(1, ReplyTo(XEvent(SELECTION_REQUEST, 7, selection, target, 5, 100), property, str))
  {
    var skipped := XEvent(SELECTION_REQUEST, 6, selection, other, 5, 99);
    var wanted := XEvent(SELECTION_REQUEST, 7, selection, target, 5, 100);
    var events := [skipped, wanted, XEvent(SELECTION_CLEAR, 0, selection, target, 0, 101)];
    assert Classify(events[0], selection, target) == Ignore;
    assert Classify(events[1], selection, target) == Serve;
    outcome := RunInBg(events, selection, target, property, str);
  }
}
