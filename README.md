# clippyman — a Dafny model of the clipboard history core

clippyman keeps a history of everything copied to the clipboard and lets the user search it.
This project models the following parts of it, with their properties proved.

- **The history store** (`HistoryStore`). This is the JSON document of `src/main.cpp`.
  - `entries` maps decimal ids to texts, in insertion order.
  - `index` maps every character to a bucket. A bucket maps each id to the offsets at which that character occurs in the entry.
  - Modelled: appending a copy (`CopyEntry`), the starting document (`CreateInitialCache`), and the removal that the delete branch of `search_algo` performs.
  - The store is a class. It is updated in place and keeps the invariant "ids ascending, index sound and complete".
- **The search session** (`SearchSession`). This is the key loop of `search_algo`, one key per step.
  - It covers exit keys, mouse rows, backspace, navigation, delete mode and its confirmation, copying the selection, and the incremental filter.
  - `size_t` wrap-around is written out. An out-of-range vector access is an explicit outcome.
  - A `Session` class over the store is proved step for step equal to a pure specification, `StepSpec` / `RunSpec`.
- **`fillVectorAlphabeticIndex`** (`AlphabeticIndex`). This is the letter count over signed 8-bit `char`s with 16-bit unsigned slots.
  - It includes its private `isalpha` (`(c|32)-'a' < 26` in unsigned arithmetic) and its private `tolower`.
- **The copy event and callback lists** (`Events`). A callback is known by its registration number. Firing appends one invocation per callback to a trace, in registration order.
- **The three clipboard listeners.** Each listener registers callbacks and polls.
  - The stream reader (`ListenerUnix`): `in()` draining stdin with `fgets`.
  - X11 (`ListenerX11`): the property filter, and the `runInBg` selection-serving loop.
  - Wayland (`ListenerWayland`): the scratch path from TMPDIR, and the mtime-gated poll of the scratch file (`StagingFile`).
- **The Wayland helpers.**
  - `waypaste.c` (`Waypaste`): offer acceptance and receiving the selection.
  - `waycopy.c` (`Waycopy`): the buffer path, the `running` flag, and the checks of `main_waycopy`.

Where the design description and the code disagree, the model follows the code.

- **Ids are reused.** The next id is the newest id plus one, so deleting the newest entry makes its id come back (`NewestIdReused`).
- **The stream reader keeps only the last `fgets` chunk** of the input, not the whole input (`OnlyLastLineSurvives`).
- **The Wayland listener strips no NUL bytes.** Only one trailing newline is dropped. The NUL bytes that waypaste leaves before a second transfer are therefore part of the content reported (`SecondSelectionPadded`).
- **The filter does not intersect candidates.** A typed character replaces the results with the entries holding that character at offset `i`. Backspace rewinds `i` to 0 and does not refilter.

## Model

| member | source | states |
|---|---|---|
| HistoryStore.DecimalRoundTrip | src/main.cpp:106-111 | an id is written in canonical decimal, `stoi` reads back the number written, and only id 0 starts with '0' |
| HistoryStore.NextIdFresh | src/main.cpp:106-111 | the next id (0 when there are no entries, else the newest id plus one) is not in use, and appending it keeps the ids ascending |
| HistoryStore.OccurrencesSpec | src/main.cpp:116-143 | the offsets recorded for a character are exactly its positions in the text, in ascending order |
| HistoryStore.OccurrencesSound | src/main.cpp:116-143 | every offset recorded for a character is a position of that character in the text, and the offsets strictly ascend |
| HistoryStore.OccurrencesComplete | src/main.cpp:116-143 | every position of the character in the text is recorded |
| HistoryStore.EmptyDocumentValid | src/main.cpp:159-174 | the initial document `{"entries": {}, "index": {}}` satisfies the store invariant |
| HistoryStore.IndexOffsetsAreOccurrences | src/main.cpp:116-143 | in a valid document, the offsets an index bucket holds for an id are that entry's occurrences of the character |
| HistoryStore.CStr | src/main.cpp:113 | the text stored is the prefix of the content up to its first NUL, and it holds no NUL |
| HistoryStore.IndexAddSpec | src/main.cpp:116-143 | indexing a new entry creates a bucket for every new character, adds the id with its occurrence list to the bucket of each character of the text, and leaves every other bucket as it was |
| HistoryStore.IndexAddKeys | src/main.cpp:116-143 | after indexing, a character has a bucket exactly when it had one before or occurs in the new text |
| HistoryStore.IndexAddBucket | src/main.cpp:116-143 | a character of the new text gets its old bucket with the new id appended and mapped to its occurrences; a bucket of a character absent from the text is unchanged |
| HistoryStore.AppendPreservesValid | src/main.cpp:106-143 | appending an entry keeps the ids ascending and the index sound and complete |
| HistoryStore.AppendKeepsSound | src/main.cpp:106-143 | after an append every bucket is still well formed and every offset list recorded is still exactly the entry's occurrences |
| HistoryStore.AppendKeepsComplete | src/main.cpp:106-143 | after an append every character of every entry, old or new, still has its id in its bucket |
| HistoryStore.AppendIndexEffect | src/main.cpp:112-143 | the new id is fresh and goes to the end of each of its characters' buckets; no other id's offsets change and no other id gains an index entry |
| HistoryStore.EraseAt | src/main.cpp:269-276 | erasing position k shortens a vector by one and shifts the later elements down, keeping the order of the rest |
| HistoryStore.RemoveFirstAt | src/main.cpp:271-274 | removing an id by name from an ordered object is erasing its position |
| HistoryStore.RemoveFirstMembers | src/main.cpp:271-274 | removing by name drops exactly the named member, once, and keeps the rest |
| HistoryStore.RemoveFirstDistinct | src/main.cpp:271-274 | on distinct ids, removal by name leaves exactly the other ids |
| HistoryStore.RemoveFirstAscending | src/main.cpp:271 | removing an id keeps the remaining ids ascending |
| HistoryStore.RemovePreservesValid | src/main.cpp:271-274 | removing an entry and its bucket members keeps the store invariant, and no bucket mentions the removed id afterwards |
| HistoryStore.ValuesAfterRemove | src/main.cpp:269-276 | removing the id at position k from the document erases position k from both the id list and the value list |
| HistoryStore.Lookup | src/main.cpp:322 | each hit id is looked up in `entries` |
| HistoryStore.LookupSnoc | src/main.cpp:322 | looking up one more id appends its text to the results |
| HistoryStore.LookupHitsStep | src/main.cpp:312-326 | visiting one more bucket member adds its entry to the results exactly when its offsets contain i |
| HistoryStore.HitsMembers | src/main.cpp:312-326 | an id is a hit exactly when it is in the bucket and its offsets contain i; on distinct ids the hits are distinct |
| HistoryStore.FilterMeaning | src/main.cpp:306-327 | the filter yields, in bucket order and once each, exactly the entries whose text has the typed character at offset i, and no more than the number of entries |
| HistoryStore.ValuesAt | src/main.cpp:195-200 | the value list holds the entry of the id at the same position |
| HistoryStore.Numerals | src/main.cpp:106-111 | the k-th id handed out from an empty store is the decimal numeral of k |
| HistoryStore.NumeralsAscending | src/main.cpp:106-111 | the numerals 0..m-1 are ascending ids whose values are their positions |
| HistoryStore.NextNumeral | src/main.cpp:106-111 | after the ids "0" .. "m-1" the next id is the numeral of m, and the newest id is canonical |
| HistoryStore.SequentialIds | src/main.cpp:106-111 | appending to a store whose ids are 0..m-1 hands out m, m+1, … in order |
| HistoryStore.IdsFromEmpty | src/main.cpp:106-111 | starting from the initial document, successive copies get ids 0, 1, 2, … |
| HistoryStore.NewestIdReused | src/main.cpp:106-111 | deleting the newest entry restores the previous ids, and the next copy gets the deleted id again |
| HistoryStore.HelloOccurrences | src/main.cpp:116-143 | in "hello", h is at [0], l at [2, 3] and o at [4] |
| HistoryStore.HelloBuckets | src/main.cpp:116-143 | indexing "hello" under "0" into an empty index creates exactly the buckets h, e, l, o, with "0" at [0], [2, 3] and [4] for h, l and o |
| HistoryStore.HelloIndexed | src/main.cpp:106-143 | the first copy of "hello" gets id "0" and buckets h, e, l, o with the offsets above |
| HistoryStore.RemovalKeepsIds | src/main.cpp:271-276 | deleting "0" from {"0": "cat", "1": "dog"} leaves {"1": "dog"}; ids are not renumbered |
| HistoryStore.Store.constructor | src/main.cpp:159-174 | the new store is the empty document and is valid |
| HistoryStore.Store.Append | src/main.cpp:90-157 | the store becomes the old document with the entry appended and indexed, it stays valid, and the id returned is the next id, unused before |
| HistoryStore.Store.IndexEntry | src/main.cpp:116-143 | the codepoint loop leaves `entries` alone and turns the index into the old index with the new entry indexed |
| HistoryStore.Store.Remove | src/main.cpp:271-274 | the store becomes the old document without the id in `entries` or in any bucket, and it stays valid |
| SearchSession.Add64 | src/main.cpp:224 | `size_t` addition stays within `SIZE_MAX` and is exact when it does not wrap |
| SearchSession.InitialInv | src/main.cpp:195-214 | the starting state (full list, nothing typed, first row selected) satisfies the session invariant |
| SearchSession.MouseClickInView | src/main.cpp:221-226 | a click selects the clicked row only when it is on screen and inside the results, and keeps the selection in view |
| SearchSession.MoveDownInView | src/main.cpp:235-247 | moving down keeps the data and the selection in view |
| SearchSession.MoveUpInView | src/main.cpp:248-260 | moving up keeps the data and the selection in view |
| SearchSession.ConfirmDeleteInv | src/main.cpp:266-289 | a confirmed delete keeps the session invariant |
| SearchSession.TypeCharInView | src/main.cpp:300-332 | typing a character keeps the data and leaves the selection valid for the new results |
| SearchSession.DispatchInv | src/main.cpp:215-332 | every branch of the key dispatch keeps the vectors mirroring a valid document and the selection in view |
| SearchSession.DispatchKeepsData | src/main.cpp:221-265 | every branch but the confirmed delete keeps the document and both vectors, and keeps the selection in view |
| SearchSession.StepPreservesInv | src/main.cpp:215-335 | one iteration of the loop preserves the session invariant |
| SearchSession.RunPreservesInv | src/main.cpp:215-339 | any sequence of keys preserves the session invariant |
| SearchSession.ExitKeys | src/main.cpp:217-218 | ESC ends the loop in normal mode and 'q' in delete mode, changing nothing; ESC does not end delete mode |
| SearchSession.EnterCopies | src/main.cpp:294-299 | Enter with a non-empty list returns the selected result |
| SearchSession.BackspaceKey | src/main.cpp:227-234 | backspace drops the last query character and rewinds i to 0 without refiltering; on an empty query it does nothing |
| SearchSession.Navigation | src/main.cpp:235-260 | Down/Right advances only below `results.size() - 1` and Up/Left retreats only above 0, one row at a time; scrolling moves by at most one and keeps the selection on screen |
| SearchSession.DownOnEmptyResults | src/main.cpp:241 | on an empty list `results.size() - 1` wraps, so Down still advances the selection |
| SearchSession.DeleteModeArrows | src/main.cpp:235-260 | in delete mode Down/Right highlight "no" and Up/Left highlight "yes"; nothing else changes |
| SearchSession.DeleteModeCancel | src/main.cpp:290-293 | with "no" highlighted, any other key leaves delete mode and changes nothing else |
| SearchSession.EnterDeleteMode | src/main.cpp:261-265 | 'd' enters delete mode, and the prompt's read of `entries_id[selected]` is in range exactly when the selection is |
| SearchSession.ConfirmedDelete | src/main.cpp:266-289 | confirming removes `entries_id[selected]` from the document and all buckets, erases that position from all three vectors, and resets the view and the mode |
| SearchSession.ConfirmDeleteEffect | src/main.cpp:266-289 | the delete removes `entries_id[selected]` from the document, erases that position from all three vectors, resets the view and keeps the session invariant |
| SearchSession.ConfirmKeyDeletes | src/main.cpp:266-289 | Enter in delete mode with "yes" highlighted takes the delete branch and nothing else |
| SearchSession.TypedCharacter | src/main.cpp:300-332 | a printable key appends to the query; the results become exactly the entries with that character at offset i, in bucket order and once each; i advances; the selection is 0, or `-1` when nothing matched |
| SearchSession.TypeKeyStep | src/main.cpp:300-332 | a printable key other than 'd' in normal mode takes the filter branch and continues |
| SearchSession.NormalModeDefined | src/main.cpp:215-335 | in normal mode with something listed, no key causes an out-of-range access |
| SearchSession.DeleteUsesUnfilteredPosition | src/main.cpp:266-289 | the delete position indexes the unfiltered vectors: with a filtered list, confirming can delete an entry that is not shown |
| SearchSession.HasOffset | src/main.cpp:317-325 | the inner loop finds i exactly when it is one of the offsets |
| SearchSession.Session.constructor | src/main.cpp:195-214 | the new session's state is the initial state over the store's document |
| SearchSession.Session.Filter | src/main.cpp:306-327 | the nested filter loops compute the filter specification over the store's document |
| SearchSession.Session.TypeKey | src/main.cpp:300-332 | the printable-key branch updates the state as the specification says |
| SearchSession.Session.DeleteSelected | src/main.cpp:266-289 | the confirmed-delete branch updates the store and the view as the specification says, and the store stays valid |
| SearchSession.Session.Navigate | src/main.cpp:221-260 | the mouse and arrow branches update the state as the specification says |
| SearchSession.Session.ApplyKey | src/main.cpp:221-332 | the whole dispatch chain matches the specification, and the store stays valid |
| SearchSession.Session.Step | src/main.cpp:215-335 | one loop iteration, including the exit check and the delete prompt's read, matches the specification |
| SearchSession.Session.Run | src/main.cpp:215-343 | the loop over a key sequence matches the specification and stops at the first key that does not continue |
| AlphabeticIndex.Or32 | include/clipboard/ClipboardListener.hpp:42 | `x|32` leaves x or adds 32, and bit 5 is set afterwards |
| AlphabeticIndex.ToUnsigned | include/clipboard/ClipboardListener.hpp:40 | converting a signed char to `unsigned` sign-extends it modulo 2^32 |
| AlphabeticIndex.SetBit5 | include/clipboard/ClipboardListener.hpp:48 | `c |= 32` on a signed char leaves c or adds 32 |
| AlphabeticIndex.ToLower | include/clipboard/ClipboardListener.hpp:45-50 | upper-case letters become lower case, and characters from '[' upward stay unchanged |
| AlphabeticIndex.IsAlphaMeansAsciiLetter | include/clipboard/ClipboardListener.hpp:40-43 | `isalpha` holds exactly for the 52 ASCII letters, and never for a negative char |
| AlphabeticIndex.Slot | include/clipboard/ClipboardListener.hpp:34-35 | a letter counts into slot 0..25, its position in the alphabet in either case |
| AlphabeticIndex.CaseInsensitive | include/clipboard/ClipboardListener.hpp:34-35 | the upper- and lower-case k-th letter both count into slot k |
| AlphabeticIndex.Resize | include/clipboard/ClipboardListener.hpp:30 | resizing to 26 keeps the first slots and pads with zeros |
| AlphabeticIndex.FillVectorAlphabeticIndex | include/clipboard/ClipboardListener.hpp:28-37 | each slot ends as its previous value plus the number of its letter in the text, wrapping at 2^16 |
| AlphabeticIndex.LetterCountConcat | include/clipboard/ClipboardListener.hpp:32-36 | the count over two texts is the sum of the counts |
| AlphabeticIndex.LetterCountOne | include/clipboard/ClipboardListener.hpp:32-36 | one character counts exactly once into its letter's slot if it is an ASCII letter, and nowhere otherwise |
| AlphabeticIndex.NonLetterChangesNothing | include/clipboard/ClipboardListener.hpp:32-36 | appending a non-letter changes no slot |
| AlphabeticIndex.LetterBumpsItsSlot | include/clipboard/ClipboardListener.hpp:32-36 | appending the k-th letter in either case increments slot k by one (mod 2^16) and no other slot |
| AlphabeticIndex.FillTwice | include/clipboard/ClipboardListener.hpp:28-37 | filling with s and then with t gives the same slots as filling once with s followed by t |
| Events.EmptyEvent | include/EventData.hpp:6-11 | a value-initialised event has empty index and content and time 0 |
| Events.Broadcast | src/clipboard/unix/ClipboardListenerUnix.cpp:60-61 | firing an event calls every callback once, in registration order, with that event |
| Events.BroadcastSnoc | src/clipboard/unix/ClipboardListenerUnix.cpp:60-61 | a callback registered last is called last |
| Events.CallbackList.constructor | src/clipboard/unix/ClipboardListenerUnix.cpp:41-44 | a new listener has no callbacks and has made no calls |
| Events.CallbackList.Add | src/clipboard/unix/ClipboardListenerUnix.cpp:41-44 | registering appends the callback and calls nothing |
| Events.CallbackList.Fire | src/clipboard/unix/ClipboardListenerUnix.cpp:60-61 | the loop appends exactly the broadcast of the event to the trace |
| ListenerUnix.LineEnd | src/clipboard/unix/ClipboardListenerUnix.cpp:25 | one `fgets` stops after a newline, after the buffer's capacity, or at the end of the data, whichever comes first |
| ListenerUnix.StripNewline | src/clipboard/unix/ClipboardListenerUnix.cpp:33-34 | the result is the text, or the text minus exactly one trailing newline |
| ListenerUnix.StripOnlyOneNewline | src/clipboard/unix/ClipboardListenerUnix.cpp:33-34 | a text ending in two newlines keeps one |
| ListenerUnix.InputStream.constructor | src/clipboard/unix/ClipboardListenerUnix.cpp:21-25 | a fresh stream is at its start with no end-of-file flag |
| ListenerUnix.InputStream.Fgets | src/clipboard/unix/ClipboardListenerUnix.cpp:25 | `fgets` returns the next chunk, or NULL at the end; the end-of-file flag is raised exactly when a read hits the end |
| ListenerUnix.In | src/clipboard/unix/ClipboardListenerUnix.cpp:19-36 | `in()` exits when end-of-file was already seen; otherwise it returns the last chunk read, up to its first NUL, minus one newline, and leaves the stream at end-of-file |
| ListenerUnix.LastChunkIsSuffix | src/clipboard/unix/ClipboardListenerUnix.cpp:24-30 | the text kept is a non-empty suffix of the input no longer than the buffer |
| ListenerUnix.LastLineWins | src/clipboard/unix/ClipboardListenerUnix.cpp:24-30 | when the last line fits in the buffer, it is the text kept, whatever precedes it |
| ListenerUnix.OnlyLastLineSurvives | src/clipboard/unix/ClipboardListenerUnix.cpp:19-36 | reading "a\nb" yields "b"; reading "one\ntwo\n" yields "two" |
| ListenerUnix.ToUpper | src/clipboard/unix/ClipboardListenerUnix.cpp:56 | lower-case ASCII letters become upper case, other characters stay |
| ListenerUnix.FirstNonSpace | src/clipboard/unix/ClipboardListenerUnix.cpp:54 | finds the first character that is not a space, or none when all are spaces |
| ListenerUnix.EventIndex | src/clipboard/unix/ClipboardListenerUnix.cpp:54-58 | the index is "Other" for blank text; otherwise it is the first non-space character, upper-cased |
| ListenerUnix.EventIndexExamples | src/clipboard/unix/ClipboardListenerUnix.cpp:54-58 | "  hello" is indexed "H", "42" is indexed "4", and blank text is indexed "Other" |
| ListenerUnix.PollEvent | src/clipboard/unix/ClipboardListenerUnix.cpp:48-58 | an event is built exactly when the content differs from the last content, and it carries the content and its index |
| ListenerUnix.Listener.constructor | src/clipboard/unix/ClipboardListenerUnix.cpp:46-64 | a new listener's last content is empty |
| ListenerUnix.Listener.AddCopyCallback | src/clipboard/unix/ClipboardListenerUnix.cpp:41-44 | registers the callback at the end |
| ListenerUnix.Listener.PollClipboard | src/clipboard/unix/ClipboardListenerUnix.cpp:46-64 | a poll exits at end-of-file; a repeat changes nothing; new content goes to every callback in order and becomes the last content |
| ListenerUnix.EmptyInputNeverFires | src/clipboard/unix/ClipboardListenerUnix.cpp:46-50 | an empty stream reads as "", which equals the initial last content, so nothing fires |
| ListenerUnix.TwoPolls | src/clipboard/unix/ClipboardListenerUnix.cpp:19-22 | the second of two polls always exits |
| ListenerX11.RemoveNuls | src/clipboard/x11/ClipboardListenerX11.cpp:167-173 | the stripped text has no NUL and is no longer than the input |
| ListenerX11.RemoveNulsKeepsPlainText | src/clipboard/x11/ClipboardListenerX11.cpp:167-173 | stripping a text without NULs changes nothing |
| ListenerX11.RemoveNulsConcat | src/clipboard/x11/ClipboardListenerX11.cpp:167-173 | stripping distributes over concatenation |
| ListenerX11.FilterNeverRepeats | src/clipboard/x11/ClipboardListenerX11.cpp:159-177 | a delivered text always differs from the last one, and a repeat is never delivered |
| ListenerX11.FilterRejectsBlank | src/clipboard/x11/ClipboardListenerX11.cpp:162-163 | empty and all-space text is never delivered |
| ListenerX11.FilterKeepsEmbeddedNuls | src/clipboard/x11/ClipboardListenerX11.cpp:165-177 | only a leading NUL triggers stripping; other text is delivered as read |
| ListenerX11.FilterStripsLeadingNul | src/clipboard/x11/ClipboardListenerX11.cpp:165-177 | with a leading NUL, all NULs are removed and the result is compared with the last text again |
| ListenerX11.FilterStripExample | src/clipboard/x11/ClipboardListenerX11.cpp:165-177 | "\0ab\0" after "x" delivers "ab", and after "ab" delivers nothing |
| ListenerX11.CStringFilter | src/clipboard/x11/ClipboardListenerX11.cpp:156-177 | for text read as a C string, the filter is "not a repeat and not blank" |
| ListenerX11.ReadEventAsWritten | src/clipboard/x11/ClipboardListenerX11.cpp:156 | the brace-initialised event holds the text in `index` and leaves `content` empty |
| ListenerX11.ReadEvent | src/clipboard/x11/ClipboardListenerX11.cpp:156 | the intended event holds the text in `content` |
| ListenerX11.AsWrittenNeverDelivers | src/clipboard/x11/ClipboardListenerX11.cpp:156-181 | as written, no run of polls ever delivers anything |
| ListenerX11.CorrectedDelivers | src/clipboard/x11/ClipboardListenerX11.cpp:156-181 | with the content filled in, a first copy of "hello" is delivered, which the code as written does not do |
| ListenerX11.Listener.constructor | src/clipboard/x11/ClipboardListenerX11.cpp:138-188 | a new listener's last content is empty |
| ListenerX11.Listener.AddCopyCallback | src/clipboard/x11/ClipboardListenerX11.cpp:133-136 | registers the callback at the end |
| ListenerX11.Listener.PollClipboard | src/clipboard/x11/ClipboardListenerX11.cpp:138-188 | with the event built as evidently intended: an xcb error is fatal; no event changes nothing; otherwise the filtered text, if any, becomes the last content and goes to every callback in order |
| ListenerX11.Kind | src/clipboard/x11/ClipboardListenerX11.cpp:202 | masking `~0x80` leaves the event code below 128, equal to the type or to the type minus 128 |
| ListenerX11.SentEventsAlike | src/clipboard/x11/ClipboardListenerX11.cpp:202-218 | an event sent by a client (bit 0x80 set) is handled exactly like the one the server generates |
| ListenerX11.ClassifyCases | src/clipboard/x11/ClipboardListenerX11.cpp:195-240 | a selection clear stops the loop; a notify stops it exactly on lost ownership; only requests for our target are served; everything else is ignored |
| ListenerX11.ReplyTo | src/clipboard/x11/ClipboardListenerX11.cpp:223-236 | the answer writes the whole buffer as 8-bit data of the target type to our property on the requestor, then sends a notify echoing the request |
| ListenerX11.RunInBg | src/clipboard/x11/ClipboardListenerX11.cpp:190-242 | the loop ends at the first event that stops or is served (serving it with `ReplyTo`); every earlier event was ignored |
| ListenerX11.ServesFirstMatchingRequest | src/clipboard/x11/ClipboardListenerX11.cpp:218-238 | a request for another target is skipped, and the first request for our target is answered |
| StagingFile.Zeros | src/clipboard/wayland/wayclip/waypaste.c:25-27 | the gap left by a write past the end of a file reads as that many NUL bytes |
| StagingFile.WriteAt | src/clipboard/wayland/wayclip/waypaste.c:25-27 | a write at an offset keeps the bytes before it, fills a gap past the old end with NUL bytes, puts the data at the offset, and keeps what lies beyond the data |
| StagingFile.WriteIntoEmpty | src/clipboard/wayland/wayclip/waypaste.c:25-27 | a write at offset n into an emptied file leaves n NUL bytes before the data |
| StagingFile.ScratchFile.constructor | src/clipboard/wayland/ClipboardListenerWayland.cpp:39 | a new scratch file is empty, and its descriptor is at offset 0 |
| StagingFile.ScratchFile.Truncate | src/clipboard/wayland/ClipboardListenerWayland.cpp:109 | truncation empties the file and leaves the descriptor's offset where it was |
| StagingFile.ScratchFile.Rewind | src/clipboard/wayland/wayclip/waypaste.c:25-27 | `lseek` to 0 moves only the offset |
| StagingFile.ScratchFile.Write | src/clipboard/wayland/wayclip/waypaste.c:27 | copying from the pipe writes the data at the descriptor's offset, not at the end, and advances the offset past it |
| StagingFile.ReadFrom | src/clipboard/wayland/wayclip/waycopy.c:20-27 | a read from an offset yields the rest of the file after it, and nothing from the end or past it |
| StagingFile.ScratchFile.ReadToEnd | src/clipboard/wayland/wayclip/waycopy.c:20-27 | copying out of the file reads from the offset to the end, moves the offset to the end, and leaves the text alone |
| ListenerWayland.ScratchPath | src/clipboard/wayland/ClipboardListenerWayland.cpp:29-38 | too long a TMPDIR is fatal; otherwise the path is TMPDIR plus the template, or the bare template when TMPDIR is unset; it fits in `PATH_MAX` |
| ListenerWayland.NextNewline | src/clipboard/wayland/ClipboardListenerWayland.cpp:89 | `getline` stops at the first newline or at the end of the text |
| ListenerWayland.JoinLines | src/clipboard/wayland/ClipboardListenerWayland.cpp:87-93 | re-joining the lines gives back the text, with a newline added when the last line had none |
| ListenerWayland.JoinedContent | src/clipboard/wayland/ClipboardListenerWayland.cpp:87-96 | after dropping one trailing newline, the content read is the file's text minus at most one trailing newline |
| ListenerWayland.Recorded | src/clipboard/wayland/ClipboardListenerWayland.cpp:75-80 | the recorded modification time only moves forward, to a newer time `stat` reports |
| ListenerWayland.RecordedIsMaximum | src/clipboard/wayland/ClipboardListenerWayland.cpp:75-80 | over any run of polls the recorded time never decreases and is at least every time `stat` reported |
| ListenerWayland.Listener.constructor | src/clipboard/wayland/ClipboardListenerWayland.cpp:20-44 | a new listener has no recorded time and no last content |
| ListenerWayland.Listener.AddCopyCallback | src/clipboard/wayland/ClipboardListenerWayland.cpp:49-52 | registers the callback at the end |
| ListenerWayland.Listener.PollClipboard | src/clipboard/wayland/ClipboardListenerWayland.cpp:54-110 | a failed `stat` or an old time changes nothing; otherwise the time is recorded, new non-empty content goes to every callback in order and becomes the last content, and the file is emptied; the offset of waypaste's descriptor `g_fd` never moves |
| ListenerWayland.NewListener | src/clipboard/wayland/ClipboardListenerWayland.cpp:29-38 | construction is fatal exactly when the scratch path is, and otherwise uses that path |
| Waypaste.OfferStep | src/clipboard/wayland/wayclip/waypaste.c:42-50 | an accepted offer stays; otherwise an offer is accepted exactly when its mime type is the requested one |
| Waypaste.FirstMatch | src/clipboard/wayland/wayclip/waypaste.c:42-50 | there is no match exactly when no offer has the wanted mime type |
| Waypaste.FirstOfferWins | src/clipboard/wayland/wayclip/waypaste.c:42-50 | over a run of offers, the first with the wanted mime type is accepted, and later ones are ignored |
| Waypaste.Paster.constructor | src/clipboard/wayland/wayclip/waypaste.c:15-50 | nothing is accepted or destroyed at the start |
| Waypaste.Paster.OfferOffer | src/clipboard/wayland/wayclip/waypaste.c:42-50 | one offer event updates only its protocol's accepted offer |
| Waypaste.Paster.Receive | src/clipboard/wayland/wayclip/waypaste.c:18-40 | when the condition holds and the selected offer is the accepted one, the file ends holding as many NUL bytes as the descriptor's old offset, then the data, and the offset moves past it; otherwise the file is untouched; the accepted offer is always destroyed and cleared |
| Waypaste.Paster.ReceiveRewound | src/clipboard/wayland/wayclip/waypaste.c:18-40 | with a rewind after the truncation, a transfer leaves the file holding exactly the data |
| Waypaste.Paster.ControlDataSelection | src/clipboard/wayland/wayclip/waypaste.c:62-67 | a regular selection is received, with the NUL padding of the unmoved offset, unless the primary was requested; a null offer does nothing |
| Waypaste.Paster.ControlDataPrimarySelection | src/clipboard/wayland/wayclip/waypaste.c:69-74 | a primary selection is received, with the same padding, only when the primary was requested; a null offer does nothing |
| Waypaste.RegularCopyScenario | src/clipboard/wayland/wayclip/waypaste.c:42-67 | of offers html(1), plain(2) and plain(3), offer 2 is received into a new file at offset 0 and destroyed, and selecting 3 afterwards transfers nothing |
| Waypaste.SecondSelectionPadded | src/clipboard/wayland/wayclip/waypaste.c:18-40 | after "hello", the next selection "world" lands at offset 5: the file holds five NUL bytes, then "world" |
| Waycopy.CopyIntoBuffer | src/clipboard/wayland/wayclip/waycopy.c:70-81 | writing dir and the template into `char[PATH_MAX]` stays inside the buffer exactly when both and the NUL fit, and then yields dir plus the template |
| Waycopy.BuildPathAsWritten | src/clipboard/wayland/wayclip/waycopy.c:70-81 | the path building as written matches its specification |
| Waycopy.BuildPath | src/clipboard/wayland/wayclip/waycopy.c:70-81 | the path building with the corrected check matches its specification |
| Waycopy.AsWrittenOverflow | src/clipboard/wayland/wayclip/waycopy.c:75-81 | as written, a write leaves the buffer exactly when TMPDIR is 4074 characters long |
| Waycopy.CorrectedFits | src/clipboard/wayland/wayclip/waycopy.c:75-81 | with `>=`, no write leaves the buffer, and the result agrees with the code as written wherever that does not overflow |
| Waycopy.DefaultPath | src/clipboard/wayland/wayclip/waycopy.c:72-73 | with TMPDIR unset the buffer is /tmp/waycopy-buffer-XXXXXX |
| Waycopy.Copier.constructor | src/clipboard/wayland/wayclip/waycopy.c:15-17 | `running` starts true, and no buffer is open |
| Waycopy.Copier.DataSourceCancelled | src/clipboard/wayland/wayclip/waycopy.c:29-35 | cancellation clears `running` and closes the buffer descriptor, changing nothing else |
| Waycopy.AsWrittenSendsNothing | src/clipboard/wayland/wayclip/waycopy.c:20-27 | as written, a paste request receives nothing, and the buffer is overwritten from its start by what the requester's descriptor yields |
| Waycopy.Copier.DataSourceSendAsWritten | src/clipboard/wayland/wayclip/waycopy.c:20-27 | the send handler as written rewinds `temp`, hands over nothing, and overwrites the buffer from its start with what the requester's descriptor yields |
| Waycopy.Copier.DataSourceSend | src/clipboard/wayland/wayclip/waycopy.c:20-27 | with the copy in the intended direction, the rewind and the read to the end send the whole buffer, from its start, wherever the offset stood; the buffer is unchanged and the offset ends at its end |
| Waycopy.RewindNeeded | src/clipboard/wayland/wayclip/waycopy.c:23-25 | after the input is copied in, `temp`'s offset is at its end, so a read without the rewind yields nothing, and from offset 0 it yields the whole input |
| Waycopy.Copier.MainWaycopy | src/clipboard/wayland/wayclip/waycopy.c:67-139 | with the corrected length check: a too long TMPDIR, a missing seat, or a missing manager is fatal; otherwise a new buffer file holds the input with its offset at the end, the source is offered on the requested selection, and `running` is returned |

## Left out

- JSON parsing and serialisation: the file is read into the model's document, and rewriting it back is not modelled. A parse error is fatal in the source.
- UTF-8: a character of the model is a code point. The index keys by code point, with offsets counted in code points, as `utf8codepoint` does.
- HistoryStore.Stoi: the conversion does not model `std::stoi`'s 32-bit range. An id above 2^31-1 would throw in the source.
- HistoryStore.Hits: bucket members that are not arrays are skipped in the source. In the model every bucket member is an offset list, which is what the store invariant guarantees. Offsets are unbounded naturals, not `unsigned int`.
- ncurses: drawing, the window size and `getmouse` are left out. `max_visible` is a parameter, and a mouse event carries the row it reports.
- SearchSession.IsPrint: `isprint` is the C-locale test, and codes above 255 count as not printable.
- xcb: connecting, interning atoms, window creation, `CopyToClipboard` and its `fork` are left out. The result of a property read and the event sequence are parameters.
- ListenerX11.Listener.PollClipboard: builds the event with the corrected line 156 of `ClipboardListenerX11.cpp` (`ReadEvent`). As written, no poll ever delivers (`AsWrittenNeverDelivers`).
- ListenerX11.Listener.PollClipboard: the property value is treated as a complete text. The source reads it as a C string with no terminator guarantee, and that read is not modelled.
- ListenerUnix.ToUpper: `std::toupper` is modelled for ASCII only. A negative `char` argument is undefined behaviour in the source, and there characters stand for bytes.
- Wayland protocol traffic is left out: display roundtrips, registry binding, listener registration, pipes and `copyfd` failures. So are `mkstemp`'s random name and its failure, `unlink`, and the listener's destructor.
- ListenerWayland.Listener.PollClipboard: the time `stat` reports is a parameter. The change that truncation makes to that time is not modelled, and neither is the fatal `die` when the file vanishes between `stat` and `open`.
- Waycopy.Copier.MainWaycopy: builds the path with the corrected `>=` check of line 75 of `waycopy.c` (`BuildPath`). As written, a TMPDIR of 4074 characters passes the check and the path overflows its buffer (`AsWrittenOverflow`).
- Waycopy.Copier.MainWaycopy: the core data-device branch is not modelled. It is unreachable, because both managers are required. The data source is always offered on the wlr device.
- `main_waypaste` (registration and the dispatch loop) and the program's `main` (command line, configuration and the poll loop) are not part of this model.
- ListenerWayland.Listener.constructor: `m_lastModifiedFileTime` is taken to start at 0. The header shown does not declare it, and the constructor does not initialise it.
- `copyfd` is not part of this model. It is taken to be a loop that reads its first descriptor and writes each chunk to its second, in the order its declaration at `src/clipboard/wayland/wayclip/common.h:30` gives. A read that fails is taken to yield nothing.
- Callbacks are opaque. The model records which callback received which event, but not what a callback does (for example `CopyEntry` writing to the store).

## Findings

| source | as written | input that shows it | evidently intended | confidence | as-written member | corrected member |
|---|---|---|---|---|---|---|
| src/clipboard/x11/ClipboardListenerX11.cpp:156 | `CopyEvent copyEvent{ ptr }` brace-initialises the first member, `index`, so `content` stays empty. Empty content equals the initial last content, so the poll never fires | a first poll that reads "hello": nothing is delivered | the property text is the event's `content` | high (not executed) | ListenerX11.AsWrittenNeverDelivers | ListenerX11.CorrectedDelivers |
| src/clipboard/wayland/wayclip/waycopy.c:75 | `strlen(ptr) > PATH_MAX - strlen(tempname)` accepts a TMPDIR of 4074 characters, and `strncat` then writes the closing NUL at `path[4096]`, one past the buffer | TMPDIR of length 4074 | `>=`, leaving room for the terminating NUL | high (not executed) | Waycopy.AsWrittenOverflow | Waycopy.CorrectedFits |
| src/clipboard/wayland/wayclip/waypaste.c:25 | `ftruncate(g_fd, 0)` empties the file but leaves `g_fd`'s offset at the end of the previous transfer (the file is not opened with `O_APPEND`), and `copyfd` writes there; the same holds at line 90 | a selection "hello", then a selection "world": the file holds five NUL bytes, then "world", and the listener reports that | `lseek(g_fd, 0, SEEK_SET)` after the truncation, so the file holds only the newest transfer | medium (not executed; the body of `copyfd` is not part of this model) | Waypaste.SecondSelectionPadded | Waypaste.Paster.ReceiveRewound |
| src/clipboard/wayland/wayclip/waycopy.c:25 | `copyfd(fd, temp)` reads the requester's descriptor and writes into `temp`, the reverse of the send the handler exists for; the same holds at line 48 | any paste request while waycopy holds "hello": the requester receives nothing | `copyfd(temp, fd)`, sending the buffer from its start | medium (not executed; direction taken from the declaration at `src/clipboard/wayland/wayclip/common.h:30`) | Waycopy.AsWrittenSendsNothing | Waycopy.Copier.DataSourceSend |
