/**
 * The interactive search/delete loop of `search_algo` (src/main.cpp): one iteration of its
 * key loop per key read with `getch`. The terminal is abstracted away: a key is
 * the integer `getch` returns, a mouse click is the row `getmouse` reports (None when
 * `getmouse` fails), and `max_visible` is a parameter. Drawing is not modelled, except
 * that the delete prompt reads `entries_id[selected]`, an access that can go out of range.
 *
 * `selected`, `scroll_offset` and `i` are `size_t`, so arithmetic on them wraps at 2^64;
 * an out-of-range vector access, which is undefined behaviour in the source, ends the
 * model's session with `OutOfRange`.
 */
module SearchSession {
  import opened Wrappers
  import opened HistoryStore

  const SIZE_MAX: nat := 0xFFFF_FFFF_FFFF_FFFF
  const INT_MAX: nat := 0x7FFF_FFFF
  /** std::vector<std::string>::max_size() on a 64-bit platform with 32-byte strings. */
  const VECTOR_MAX_SIZE: nat := 0x3FF_FFFF_FFFF_FFFF

  // Key codes as getch returns them (ncurses values).
  const ERR: int := -1
  const NEWLINE: int := 10
  const ESC: int := 27
  const DEL_CHAR: int := 127
  const KEY_DOWN: int := 0x102
  const KEY_UP: int := 0x103
  const KEY_LEFT: int := 0x104
  const KEY_RIGHT: int := 0x105
  const KEY_BACKSPACE: int := 0x107
  const KEY_MOUSE: int := 0x199

  /** `size_t` addition. */
  function Add64(a: nat, b: nat): (r: nat)
    ensures r <= SIZE_MAX
    ensures a + b <= SIZE_MAX ==> r == a + b
  {
    (a + b) % (SIZE_MAX + 1)
  }

  /** `results.size() - 1` on a `size_t`: an empty vector gives SIZE_MAX. */
  function SizeMinusOne(n: nat): nat
  {
    if n == 0 then SIZE_MAX else n - 1
  }

  /** isprint in the C locale. Codes above 255 are outside isprint's domain; they are taken as not printable. */
  predicate IsPrint(ch: int)
  {
    32 <= ch <= 126
  }

  datatype State = State(
    query: string,
    i: nat,                     // offset the next typed character is tested at
    selected: nat,
    scrollOffset: nat,
    del: bool,                  // delete-confirmation mode
    delSelected: bool,          // "yes" highlighted in the confirmation prompt
    results: seq<Content>,
    entriesId: seq<Id>,
    entriesValue: seq<Content>,
    doc: Document)

  datatype Outcome =
    | Continue                  // wait for the next key
    | Quit                      // the loop ended without a selection
    | Copy(content: Content)    // the loop returned with this entry selected
    | OutOfRange                // a vector was indexed out of range (undefined behaviour)

  /** The state before the first key: the full list, nothing selected beyond the first row. */
  function Initial(doc: Document): State
  {
    State("", 0, 0, 0, false, false, Values(doc), doc.ids, Values(doc), doc)
  }

  // ---------------------------------------------------------------------------
  // The branches of the loop body

  function MouseClick(s: State, y: int, mv: nat): State
  {
    var row := y - 3;
    if row >= 0 && row < mv && Add64(s.scrollOffset, row) < |s.results| then s.(selected := Add64(s.scrollOffset, row))
    else s
  }

  function Backspace(s: State): State
  {
    if s.query != [] then s.(query := s.query[..|s.query| - 1], i := 0) else s
  }

  function MoveDown(s: State, mv: nat): State
  {
    if s.del then s.(delSelected := false)
    else if s.selected < SizeMinusOne(|s.results|) then
      var sel := s.selected + 1;
      s.(selected := sel, scrollOffset := if sel >= Add64(s.scrollOffset, mv) then Add64(s.scrollOffset, 1) else s.scrollOffset)
    else s
  }

  function MoveUp(s: State): State
  {
    if s.del then s.(delSelected := true)
    else if s.selected > 0 then
      var sel := s.selected - 1;
      s.(selected := sel, scrollOffset := if sel < s.scrollOffset then s.scrollOffset - 1 else s.scrollOffset)
    else s
  }

  /** Enter with "yes" highlighted: erase position `selected` of all three vectors and the
      entry with id `entries_id[selected]` from the document. */
  function ConfirmDelete(s: State): (State, Outcome)
  {
    var k := s.selected;
    if k < |s.results| && k < |s.entriesValue| && k < |s.entriesId| then
      (s.(del := false,
          results := EraseAt(s.results, k),
          entriesValue := EraseAt(s.entriesValue, k),
          doc := RemoveDoc(s.doc, s.entriesId[k]),
          entriesId := EraseAt(s.entriesId, k),
          selected := 0,
          scrollOffset := 0),
       Continue)
    else
      (s.(del := false), OutOfRange)
  }

  /** A printable key: extend the query and refilter on the typed character alone at offset i.
      `selected` is 0 here, so the source's `selected >= results.size()` test holds exactly when
      `results` is empty, and then `selected` becomes `-1`. */
  function TypeChar(s: State, ch: int): State
    requires IsPrint(ch)
  {
    var c := ch as char;
    var r := FilterDoc(s.doc, c, s.i);
    s.(query := s.query + [c],
       selected := if r == [] then SIZE_MAX else 0,
       scrollOffset := 0,
       results := r,
       i := Add64(s.i, 1))
  }

  /** The if/else-if chain of the loop body, in the source's order. */
  function Dispatch(s: State, ch: int, mouse: Option<int>, mv: nat): (State, Outcome)
  {
    if ch == KEY_MOUSE && mouse.Some? then (MouseClick(s, mouse.value, mv), Continue)
    else if ch == KEY_BACKSPACE || ch == DEL_CHAR then (Backspace(s), Continue)
    else if ch == KEY_DOWN || ch == KEY_RIGHT then (MoveDown(s, mv), Continue)
    else if ch == KEY_UP || ch == KEY_LEFT then (MoveUp(s), Continue)
    else if ch == 'd' as int && !s.del then (s.(del := true), Continue)
    else if s.del && ch == NEWLINE && s.delSelected then ConfirmDelete(s)
    else if s.del && !s.delSelected then (s.(del := false), Continue)
    else if ch == NEWLINE && s.selected < SIZE_MAX - 1 && s.results != [] then
      (s, if s.selected < |s.results| then Copy(s.results[s.selected]) else OutOfRange)
    else if IsPrint(ch) then (TypeChar(s, ch), Continue)
    else (s, Continue)
  }

  /** The key that ends the loop: ESC in normal mode, 'q' in delete mode, or ERR from getch. */
  predicate IsExitKey(s: State, ch: int)
  {
    ch == ERR || ch == (if s.del then 'q' as int else ESC)
  }

  /** One iteration of the loop: exit check, the branch, then the delete prompt's read of `entries_id[selected]`. */
  function StepSpec(s: State, ch: int, mouse: Option<int>, mv: nat): (State, Outcome)
  {
    if IsExitKey(s, ch) then (s, Quit)
    else
      var (t, o) := Dispatch(s, ch, mouse, mv);
      if o != Continue then (t, o)
      else if t.del && t.selected >= |t.entriesId| then (t, OutOfRange)
      else (t, Continue)
  }

  /** The loop over a whole key sequence: it stops at the first key that does not continue. */
  function RunSpec(s: State, keys: seq<(int, Option<int>)>, mv: nat): (State, Outcome)
    decreases |keys|
  {
    if keys == [] then (s, Continue)
    else
      var (t, o) := StepSpec(s, keys[0].0, keys[0].1, mv);
      if o != Continue then (t, o) else RunSpec(t, keys[1..], mv)
  }

  // ---------------------------------------------------------------------------
  // The session invariant

  /** The vectors mirror a valid document whose size fits in memory. */
  ghost predicate Mirrors(s: State)
  {
    && DocValid(s.doc)
    && s.entriesId == s.doc.ids
    && s.entriesValue == Values(s.doc)
    && |s.entriesId| <= VECTOR_MAX_SIZE
  }

  /** The view fields fit their `size_t` and a non-empty result list has its selected row
      inside it and on screen. */
  predicate InView(s: State, mv: nat)
  {
    && |s.results| <= |s.entriesId|
    && s.i <= SIZE_MAX
    && s.selected <= SIZE_MAX
    && s.scrollOffset <= s.selected
    && (s.results != [] ==> s.selected < |s.results| && s.selected < s.scrollOffset + mv)
  }

  /** What every reachable state satisfies. */
  ghost predicate SessionInv(s: State, mv: nat)
  {
    Mirrors(s) && InView(s, mv) && (s.del ==> s.selected < |s.entriesId|)
  }

  lemma InitialInv(doc: Document, mv: nat)
    requires DocValid(doc) && |doc.ids| <= VECTOR_MAX_SIZE && 0 < mv
    ensures SessionInv(Initial(doc), mv)
  {
  }

  /** Same document and vectors, only view fields changed. */
  predicate SameData(s: State, t: State)
  {
    t.doc == s.doc && t.entriesId == s.entriesId && t.entriesValue == s.entriesValue
  }

  lemma MouseClickInView(s: State, y: int, mv: nat)
    requires InView(s, mv) && |s.entriesId| <= VECTOR_MAX_SIZE && 0 < mv <= INT_MAX
    ensures SameData(s, MouseClick(s, y, mv)) && MouseClick(s, y, mv).results == s.results
    ensures InView(MouseClick(s, y, mv), mv)
    ensures MouseClick(s, y, mv).selected != s.selected ==> MouseClick(s, y, mv).selected < |s.results|
  {
  }

  lemma MoveDownInView(s: State, mv: nat)
    requires InView(s, mv) && |s.entriesId| <= VECTOR_MAX_SIZE && 0 < mv <= INT_MAX
    ensures SameData(s, MoveDown(s, mv)) && MoveDown(s, mv).results == s.results
    ensures InView(MoveDown(s, mv), mv)
  {
  }

  lemma MoveUpInView(s: State, mv: nat)
    requires InView(s, mv) && 0 < mv
    ensures SameData(s, MoveUp(s)) && MoveUp(s).results == s.results
    ensures InView(MoveUp(s), mv)
  {
  }

  lemma ConfirmDeleteInv(s: State, mv: nat)
    requires SessionInv(s, mv) && 0 < mv && ConfirmDelete(s).1 == Continue
    ensures SessionInv(ConfirmDelete(s).0, mv)
  {
    ValuesAfterRemove(s.doc, s.selected);
    RemovePreservesValid(s.doc, s.entriesId[s.selected]);
  }

  lemma TypeCharInView(s: State, ch: int, mv: nat)
    requires Mirrors(s) && InView(s, mv) && IsPrint(ch) && 0 < mv
    ensures SameData(s, TypeChar(s, ch))
    ensures InView(TypeChar(s, ch), mv)
  {
    FilterMeaning(s.doc, ch as char, s.i);
  }

  /** The invariant's data half depends only on the document and the two vectors. */
  lemma MirrorsSameData(s: State, t: State)
    requires Mirrors(s) && SameData(s, t)
    ensures Mirrors(t)
  {
  }

  /** Every branch but the confirmed delete leaves the data alone and keeps the view in range. */
  lemma DispatchKeepsData(s: State, ch: int, mouse: Option<int>, mv: nat)
    requires InView(s, mv) && |s.entriesId| <= VECTOR_MAX_SIZE && 0 < mv <= INT_MAX
    requires !(s.del && ch == NEWLINE && s.delSelected)
    requires IsPrint(ch) ==> SameData(s, TypeChar(s, ch)) && InView(TypeChar(s, ch), mv)
    ensures SameData(s, Dispatch(s, ch, mouse, mv).0) && InView(Dispatch(s, ch, mouse, mv).0, mv)
  {
    if ch == KEY_MOUSE && mouse.Some? {
      MouseClickInView(s, mouse.value, mv);
    } else if ch == KEY_BACKSPACE || ch == DEL_CHAR {
    } else if ch == KEY_DOWN || ch == KEY_RIGHT {
      MoveDownInView(s, mv);
    } else if ch == KEY_UP || ch == KEY_LEFT {
      MoveUpInView(s, mv);
    } else if ch == 'd' as int && !s.del {
    } else if s.del && !s.delSelected {
    } else if ch == NEWLINE && s.selected < SIZE_MAX - 1 && s.results != [] {
    }
  }

  lemma DispatchInv(s: State, ch: int, mouse: Option<int>, mv: nat)
    requires SessionInv(s, mv) && 0 < mv <= INT_MAX
    requires Dispatch(s, ch, mouse, mv).1 == Continue
    ensures Mirrors(Dispatch(s, ch, mouse, mv).0) && InView(Dispatch(s, ch, mouse, mv).0, mv)
  {
    if s.del && ch == NEWLINE && s.delSelected {
      assert Dispatch(s, ch, mouse, mv) == ConfirmDelete(s);
      ConfirmDeleteInv(s, mv);
    } else {
      if IsPrint(ch) {
        TypeCharInView(s, ch, mv);
      }
      DispatchKeepsData(s, ch, mouse, mv);
      MirrorsSameData(s, Dispatch(s, ch, mouse, mv).0);
    }
  }

  /** Every step that continues keeps the session invariant. */
  lemma StepPreservesInv(s: State, ch: int, mouse: Option<int>, mv: nat)
    requires SessionInv(s, mv) && 0 < mv <= INT_MAX
    requires StepSpec(s, ch, mouse, mv).1 == Continue
    ensures SessionInv(StepSpec(s, ch, mouse, mv).0, mv)
  {
    DispatchInv(s, ch, mouse, mv);
  }

  /** A whole run that has not ended still satisfies the invariant. */
  lemma {:induction false} RunPreservesInv(s: State, keys: seq<(int, Option<int>)>, mv: nat)
    requires SessionInv(s, mv) && 0 < mv <= INT_MAX
    requires RunSpec(s, keys, mv).1 == Continue
    ensures SessionInv(RunSpec(s, keys, mv).0, mv)
    decreases |keys|
  {
    if keys != [] {
      StepPreservesInv(s, keys[0].0, keys[0].1, mv);
      RunPreservesInv(StepSpec(s, keys[0].0, keys[0].1, mv).0, keys[1..], mv);
    }
  }

  // ---------------------------------------------------------------------------
  // What each kind of key does

  /** ESC in normal mode and 'q' in delete mode end the session yielding nothing, with no change. */
  lemma ExitKeys(s: State, mouse: Option<int>, mv: nat)
    ensures !s.del ==> StepSpec(s, ESC, mouse, mv) == (s, Quit)
    ensures s.del ==> StepSpec(s, 'q' as int, mouse, mv) == (s, Quit)
    ensures s.del ==> StepSpec(s, ESC, mouse, mv).1 != Quit
  {
  }

  /** Enter in normal mode with a non-empty result list yields the selected result. */
  lemma EnterCopies(s: State, mouse: Option<int>, mv: nat)
    requires SessionInv(s, mv) && !s.del && s.results != []
    ensures StepSpec(s, NEWLINE, mouse, mv) == (s, Copy(s.results[s.selected]))
  {
  }

  /** Backspace drops one query character and rewinds i to 0; it does not refilter. */
  lemma BackspaceKey(s: State, ch: int, mouse: Option<int>, mv: nat)
    requires ch == KEY_BACKSPACE || ch == DEL_CHAR
    requires SessionInv(s, mv)
    ensures StepSpec(s, ch, mouse, mv).1 == Continue
    ensures var t := StepSpec(s, ch, mouse, mv).0;
      && (s.query != [] ==> t.query + [s.query[|s.query| - 1]] == s.query && t.i == 0)
      && (s.query == [] ==> t.query == [] && t.i == s.i)
      && t.results == s.results && t.selected == s.selected && t.doc == s.doc && t.del == s.del
  {
  }

  /** Normal-mode navigation: Down/Right advances only below `results.size() - 1` and Up/Left
      retreats only above 0, one row at a time; a non-empty list keeps the selection on screen. */
  lemma Navigation(s: State, ch: int, mouse: Option<int>, mv: nat)
    requires InView(s, mv) && |s.entriesId| <= VECTOR_MAX_SIZE && !s.del && 0 < mv <= INT_MAX
    requires ch in {KEY_DOWN, KEY_RIGHT, KEY_UP, KEY_LEFT}
    ensures var (t, o) := StepSpec(s, ch, mouse, mv);
      && o == Continue
      && (ch in {KEY_DOWN, KEY_RIGHT} ==>
            t.selected == if s.selected < SizeMinusOne(|s.results|) then s.selected + 1 else s.selected)
      && (ch in {KEY_UP, KEY_LEFT} ==>
            t.selected == if s.selected > 0 then s.selected - 1 else s.selected)
      && (t.scrollOffset == s.scrollOffset || t.scrollOffset == s.scrollOffset + 1 || t.scrollOffset + 1 == s.scrollOffset)
      && (t.results != [] ==> t.scrollOffset <= t.selected < t.scrollOffset + mv)
      && t.results == s.results && t.query == s.query && t.doc == s.doc
  {
    if ch == KEY_DOWN || ch == KEY_RIGHT {
      MoveDownInView(s, mv);
      assert StepSpec(s, ch, mouse, mv) == (MoveDown(s, mv), Continue);
    } else {
      MoveUpInView(s, mv);
      assert StepSpec(s, ch, mouse, mv) == (MoveUp(s), Continue);
    }
  }

  /** On an empty result list `results.size() - 1` wraps, so Down still moves the selection. */
  lemma DownOnEmptyResults(s: State, mv: nat)
    requires !s.del && s.results == [] && s.selected < SIZE_MAX
    ensures StepSpec(s, KEY_DOWN, None, mv).0.selected == s.selected + 1
  {
  }

  /** In delete mode the arrows only move the confirmation highlight. */
  lemma DeleteModeArrows(s: State, ch: int, mouse: Option<int>, mv: nat)
    requires SessionInv(s, mv) && s.del
    requires ch in {KEY_DOWN, KEY_RIGHT, KEY_UP, KEY_LEFT}
    ensures StepSpec(s, ch, mouse, mv) == (s.(delSelected := ch in {KEY_UP, KEY_LEFT}), Continue)
  {
  }

  /** With "no" highlighted, any key the chain reaches after the arrows leaves delete mode and changes nothing else. */
  lemma DeleteModeCancel(s: State, ch: int, mouse: Option<int>, mv: nat)
    requires s.del && !s.delSelected
    requires !IsExitKey(s, ch) && !(ch == KEY_MOUSE && mouse.Some?)
    requires ch !in {KEY_BACKSPACE, DEL_CHAR, KEY_DOWN, KEY_RIGHT, KEY_UP, KEY_LEFT}
    ensures StepSpec(s, ch, mouse, mv) == (s.(del := false), Continue)
  {
  }

  /** 'd' in normal mode enters delete mode; the prompt then reads `entries_id[selected]`. */
  lemma EnterDeleteMode(s: State, mouse: Option<int>, mv: nat)
    requires !s.del
    ensures var (t, o) := StepSpec(s, 'd' as int, mouse, mv);
      t == s.(del := true) && (o == Continue <==> s.selected < |s.entriesId|) && (o != Continue ==> o == OutOfRange)
  {
  }

  /** What the confirmed-delete branch does to a state that satisfies the invariant. */
  lemma ConfirmDeleteEffect(s: State, mv: nat)
    requires SessionInv(s, mv) && s.del && s.results != [] && 0 < mv
    ensures var (t, o) := ConfirmDelete(s);
      var id := s.entriesId[s.selected];
      && o == Continue
      && t.doc == RemoveDoc(s.doc, id)
      && id !in t.doc.entries && id !in t.entriesId
      && (forall c :: c in t.doc.index <==> c in s.doc.index)
      && (forall c :: c in t.doc.index ==> id !in t.doc.index[c].offsets)
      && t.results == EraseAt(s.results, s.selected)
      && t.entriesValue == EraseAt(s.entriesValue, s.selected)
      && t.entriesId == EraseAt(s.entriesId, s.selected)
      && t.selected == 0 && t.scrollOffset == 0 && !t.del && t.delSelected == s.delSelected
      && t.query == s.query && t.i == s.i
      && SessionInv(t, mv)
  {
    var id := s.entriesId[s.selected];
    RemovePreservesValid(s.doc, id);
    AscendingDistinct(s.entriesId);
    EraseAtDrops(s.entriesId, s.selected);
    ConfirmDeleteInv(s, mv);
  }

  /** Enter in delete mode with "yes" highlighted runs the confirmed-delete branch, and when
      that branch stays in range the loop continues. */
  lemma ConfirmKeyDeletes(s: State, mouse: Option<int>, mv: nat)
    requires s.del && s.delSelected
    requires s.selected < |s.results| && s.selected < |s.entriesValue| && s.selected < |s.entriesId|
    ensures StepSpec(s, NEWLINE, mouse, mv) == ConfirmDelete(s)
  {
    assert Dispatch(s, NEWLINE, mouse, mv) == ConfirmDelete(s);
  }

  /** A confirmed delete removes `entries_id[selected]` from the document (from `entries` and from
      every index bucket, which stay in place), erases position `selected` from `results`,
      `entries_value` and `entries_id`, resets the view and leaves delete mode. The
      confirmation highlight stays set. */
  lemma ConfirmedDelete(s: State, mouse: Option<int>, mv: nat)
    requires SessionInv(s, mv) && s.del && s.delSelected && s.results != [] && 0 < mv <= INT_MAX
    ensures var (t, o) := StepSpec(s, NEWLINE, mouse, mv);
      var id := s.entriesId[s.selected];
      && o == Continue
      && t.doc == RemoveDoc(s.doc, id)
      && id !in t.doc.entries && id !in t.entriesId
      && (forall c :: c in t.doc.index <==> c in s.doc.index)
      && (forall c :: c in t.doc.index ==> id !in t.doc.index[c].offsets)
      && t.results == EraseAt(s.results, s.selected)
      && t.entriesValue == EraseAt(s.entriesValue, s.selected)
      && t.entriesId == EraseAt(s.entriesId, s.selected)
      && t.selected == 0 && t.scrollOffset == 0 && !t.del && t.delSelected
      && t.query == s.query && t.i == s.i
      && SessionInv(t, mv)
  {
    ConfirmDeleteEffect(s, mv);
    ConfirmKeyDeletes(s, mouse, mv);
  }

  /** A printable key other than 'd' in normal mode runs the printable branch, and the loop continues. */
  lemma TypeKeyStep(s: State, ch: int, mouse: Option<int>, mv: nat)
    requires !s.del && IsPrint(ch) && ch != 'd' as int
    ensures StepSpec(s, ch, mouse, mv) == (TypeChar(s, ch), Continue)
  {
    assert Dispatch(s, ch, mouse, mv) == (TypeChar(s, ch), Continue);
  }

  /** A printable key in normal mode appends it to the query and replaces the results by the
      entries, in bucket order and each once, whose content has that character at offset i;
      then i advances. */
  lemma TypedCharacter(s: State, ch: int, mouse: Option<int>, mv: nat)
    requires SessionInv(s, mv) && !s.del && IsPrint(ch) && ch != 'd' as int
    ensures var (t, o) := StepSpec(s, ch, mouse, mv);
      var c := ch as char;
      && o == Continue
      && t.query == s.query + [c]
      && t.results == FilterDoc(s.doc, c, s.i)
      && Distinct(HitIds(s.doc, c, s.i))
      && (forall id :: id in HitIds(s.doc, c, s.i) <==>
            id in s.doc.entries && s.i < |s.doc.entries[id]| && s.doc.entries[id][s.i] == c)
      && (forall k :: 0 <= k < |t.results| ==> t.results[k] == s.doc.entries[HitIds(s.doc, c, s.i)[k]])
      && t.i == Add64(s.i, 1)
      && t.scrollOffset == 0
      && t.selected == (if t.results == [] then SIZE_MAX else 0)
      && t.doc == s.doc && t.entriesId == s.entriesId && t.entriesValue == s.entriesValue
  {
    TypeKeyStep(s, ch, mouse, mv);
    FilterMeaning(s.doc, ch as char, s.i);
  }

  /** In normal mode with something listed, no key leads to an out-of-range access. */
  lemma NormalModeDefined(s: State, ch: int, mouse: Option<int>, mv: nat)
    requires SessionInv(s, mv) && !s.del && s.results != []
    ensures StepSpec(s, ch, mouse, mv).1 != OutOfRange
  {
  }

  /** The delete position indexes all three vectors alike: with a filtered list showing only the
      second entry, confirming deletes the first entry, and the entry shown stays. */
  lemma DeleteUsesUnfilteredPosition(doc: Document)
    ensures var s := State("x", 1, 0, 0, true, true, ["xb"], ["0", "1"], ["ab", "xb"], doc);
      var (t, o) := StepSpec(s, NEWLINE, None, 5);
      && o == Continue
      && t.doc == RemoveDoc(doc, "0")
      && t.entriesId == ["1"] && t.entriesValue == ["xb"] && t.results == []
  {
    var ids: seq<Id> := ["0", "1"];
    var values: seq<Content> := ["ab", "xb"];
    assert EraseAt(ids, 0) == ["1"];
    assert EraseAt(values, 0) == ["xb"];
  }

  /** The innermost loop of the filter: walk an offset list until an offset equals i
      (`n_i <= i && n_i == i` is just `n_i == i`). */
  method HasOffset(offsets: seq<nat>, i: nat) returns (found: bool)
    ensures found <==> i in offsets
  {
    var m := 0;
    while m < |offsets|
      invariant 0 <= m <= |offsets|
      invariant i !in offsets[..m]
    {
      if offsets[m] <= i && offsets[m] == i {
        return true;
      }
      assert offsets[..m + 1] == offsets[..m] + [offsets[m]];
      m := m + 1;
    }
    assert offsets[..m] == offsets;
    return false;
  }

  // ---------------------------------------------------------------------------
  // The loop as it runs: a session object over the store

  class Session {
    var query: string
    var i: nat
    var selected: nat
    var scrollOffset: nat
    var del: bool
    var delSelected: bool
    var results: seq<Content>
    var entriesId: seq<Id>
    var entriesValue: seq<Content>
    const store: Store
    const maxVisible: nat

    function Snapshot(): State
      reads this, store
    {
      State(query, i, selected, scrollOffset, del, delSelected, results, entriesId, entriesValue, store.Doc())
    }

    /** The set-up before the loop: snapshot `entries` member by member into `entries_id` and
        `entries_value`, and start with the full list. */
    constructor (store: Store, maxVisible: nat)
      requires store.Valid()
      ensures this.store == store && this.maxVisible == maxVisible
      ensures Snapshot() == Initial(store.Doc())
    {
      var ids: seq<Id> := [];
      var values: seq<Content> := [];
      var k := 0;
      while k < |store.ids|
        invariant 0 <= k <= |store.ids|
        invariant ids == store.ids[..k] && |values| == k
        invariant forall j :: 0 <= j < k ==> values[j] == store.entries[store.ids[j]]
      {
        ids := ids + [store.ids[k]];
        values := values + [store.entries[store.ids[k]]];
        k := k + 1;
      }
      assert ids == store.ids;
      assert values == Values(store.Doc());
      this.store := store;
      this.maxVisible := maxVisible;
      query, i, selected, scrollOffset := "", 0, 0, 0;
      del, delSelected := false, false;
      results, entriesId, entriesValue := values, ids, values;
    }

    /** The filter loop of the printable branch: walk the bucket of c member by member and take
        an entry at the first offset equal to i. */
    method Filter(c: char) returns (r: seq<Content>)
      ensures r == FilterDoc(store.Doc(), c, i)
    {
      r := [];
      var entries := store.entries;
      if c in store.index {
        var bucket := store.index[c];
        var k := 0;
        while k < |bucket.ids|
          invariant 0 <= k <= |bucket.ids|
          invariant r == Lookup(entries, Hits(bucket.ids[..k], bucket.offsets, i))
        {
          var id := bucket.ids[k];
          LookupHitsStep(entries, bucket.ids, bucket.offsets, i, k);
          if id in bucket.offsets {   // it->value.IsArray()
            var found := HasOffset(bucket.offsets[id], i);
            if found {
              r := r + [if id in entries then entries[id] else []];
            }
          }
          k := k + 1;
        }
        assert bucket.ids[..k] == bucket.ids;
      }
    }

    /** The printable branch: extend the query, refilter, advance i. */
    method TypeKey(ch: int)
      requires IsPrint(ch)
      modifies this
      ensures Snapshot() == TypeChar(old(Snapshot()), ch)
    {
      var c := ch as char;
      query := query + [c];
      selected := 0;
      scrollOffset := 0;
      results := Filter(c);
      i := Add64(i, 1);
      if selected >= |results| {   // holds only for an empty list, where `results.empty() ? -1 : 0` gives -1
        selected := SIZE_MAX;
      }
    }

    /** The confirmed-delete branch. */
    method DeleteSelected() returns (outcome: Outcome)
      requires store.Valid()
      modifies this, store
      ensures store.Valid()
      ensures (Snapshot(), outcome) == ConfirmDelete(old(Snapshot()))
    {
      del := false;
      if !(selected < |results| && selected < |entriesValue| && selected < |entriesId|) {
        return OutOfRange;
      }
      results := EraseAt(results, selected);
      entriesValue := EraseAt(entriesValue, selected);
      store.Remove(entriesId[selected]);
      entriesId := EraseAt(entriesId, selected);
      selected := 0;
      scrollOffset := 0;
      outcome := Continue;
    }

    /** The navigation branches: mouse, Down/Right, Up/Left. */
    method Navigate(ch: int, mouse: Option<int>)
      requires (ch == KEY_MOUSE && mouse.Some?) || ch in {KEY_DOWN, KEY_RIGHT, KEY_UP, KEY_LEFT}
      modifies this
      ensures Snapshot() == Dispatch(old(Snapshot()), ch, mouse, maxVisible).0
    {
      if ch == KEY_MOUSE && mouse.Some? {
        var row := mouse.value - 3;
        if row >= 0 && row < maxVisible && Add64(scrollOffset, row) < |results| {
          selected := Add64(scrollOffset, row);
        }
      } else if ch == KEY_DOWN || ch == KEY_RIGHT {
        if del {
          delSelected := false;
        } else if selected < SizeMinusOne(|results|) {
          selected := selected + 1;
          if selected >= Add64(scrollOffset, maxVisible) {
            scrollOffset := Add64(scrollOffset, 1);
          }
        }
      } else {
        if del {
          delSelected := true;
        } else if selected > 0 {
          selected := selected - 1;
          if selected < scrollOffset {
            scrollOffset := scrollOffset - 1;
          }
        }
      }
    }

    /** The if/else-if chain of the loop body. */
    method ApplyKey(ch: int, mouse: Option<int>) returns (outcome: Outcome)
      requires store.Valid()
      modifies this, store
      ensures store.Valid()
      ensures (Snapshot(), outcome) == Dispatch(old(Snapshot()), ch, mouse, maxVisible)
    {
      outcome := Continue;
      if (ch == KEY_MOUSE && mouse.Some?) || ch == KEY_DOWN || ch == KEY_RIGHT || ch == KEY_UP || ch == KEY_LEFT {
        Navigate(ch, mouse);
      } else if ch == KEY_BACKSPACE || ch == DEL_CHAR {
        if query != [] {
          query := query[..|query| - 1];
          i := 0;
        }
      } else if ch == 'd' as int && !del {
        del := true;
      } else if del && ch == NEWLINE && delSelected {
        outcome := DeleteSelected();
      } else if del && !delSelected {
        del := false;
      } else if ch == NEWLINE && selected < SIZE_MAX - 1 && results != [] {
        outcome := if selected < |results| then Copy(results[selected]) else OutOfRange;
      } else if IsPrint(ch) {
        TypeKey(ch);
      }
    }

    /** One iteration of the loop for key ch (and, for a mouse key, what getmouse reported). */
    method Step(ch: int, mouse: Option<int>) returns (outcome: Outcome)
      requires store.Valid()
      modifies this, store
      ensures store.Valid()
      ensures (Snapshot(), outcome) == StepSpec(old(Snapshot()), ch, mouse, maxVisible)
    {
      if ch == ERR || ch == (if del then 'q' as int else ESC) {
        return Quit;
      }
      outcome := ApplyKey(ch, mouse);
      if outcome == Continue && del && selected >= |entriesId| {   // the delete prompt reads entries_id[selected]
        outcome := OutOfRange;
      }
    }

    /** The whole loop over a key sequence, stopping at the first key that does not continue. */
    method Run(keys: seq<(int, Option<int>)>) returns (outcome: Outcome)
      requires store.Valid()
      modifies this, store
      ensures store.Valid()
      ensures (Snapshot(), outcome) == RunSpec(old(Snapshot()), keys, maxVisible)
    {
      outcome := Continue;
      var n := 0;
      while n < |keys|
        invariant 0 <= n <= |keys|
        invariant store.Valid() && outcome == Continue
        invariant RunSpec(old(Snapshot()), keys, maxVisible) == RunSpec(Snapshot(), keys[n..], maxVisible)
        decreases |keys| - n
      {
        assert keys[n..][0] == keys[n] && keys[n..][1..] == keys[n + 1..];
        outcome := Step(keys[n].0, keys[n].1);
        if outcome != Continue {
          return;
        }
        n := n + 1;
      }
    }
  }
}
