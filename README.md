# Raito notes: the store and the brain-dump sidebar

Raito is a notes app. Each post has a body of plain text. Lines of the form
`~ some label` inside a body are "brain dumps": the sidebar lists them, lets
the user drag one to another place (which moves its line and the text after
it through the body), and appends a new one when the user types a label and
presses Enter. A reducer holds the posts, the selected post and a
"no disturb" flag.

This project models that core and proves what it promises:

- `Text`: the JavaScript whitespace class `\s`, line terminators, `trim` and `endsWith`.
- `Tildes`: the regular expression `/^~\s+[\S ]+$/mg`, written out as the
  backtracking search a JavaScript engine runs, with `match`, `split` and the
  label stripping built on it.
- `LineClassifier`: an independent line-by-line reading of a body: tilde-lines,
  dangling lines and plain text. `SplitByLines` proves that on a body without
  dangling lines the regex finds exactly the tilde-lines, in order, and
  `SplitIsLineSplit` that `split` cuts the body exactly around them.
- `BrainDump`: `updateBrainDumps`, the `onDragEnd` move (the `forEach`
  reassembly is a method with a loop invariant), and the Enter-key append,
  each with its round trip through the labels.
- `Store`: the reducer as a pure step `Apply(state, action, newId)`.
  ADD_BRAIN and UPDATE_BODY return an error when no post has the selected id.
  The JavaScript would fault there: `findIndex` gives -1, so
  `draft.posts[-1]` is `undefined`. ADD_BRAIN faults when it reads `.body`
  of it (app.reducer.js:43); UPDATE_BODY faults when it writes `.body`
  (app.reducer.js:55).

The model follows the code as written, including three behaviours a reader might not expect:

- SELECT_POST and UPDATE_BODY do not store an `immediate` flag.
- UPDATE_BODY with no matching post faults; it is not a no-op.
- NO_DISTURB with a `false` payload toggles.

A dangling line is `~` followed by whitespace only. The regex's `\s+` can run
from such a line into the next one, so the two lines form one match. This
case is modelled exactly in `Tildes`. The round-trip lemmas exclude it by
hypothesis.

## Model

| member | source | states |
|---|---|---|
| Text.IsWs | src/BrainDump.js:77 | the class `\s` of the regex and the set `trim` removes (line 121): ECMAScript's WhiteSpace and LineTerminator characters, that is the space, the line feed and the `IsRareWs` characters |
| Text.IsRareWs | src/BrainDump.js:77 | the rest of `\s`: tab, carriage return, U+000B, U+000C, U+00A0, U+1680, U+2000 to U+200A, U+2028, U+2029, U+202F, U+205F, U+3000 and U+FEFF |
| Text.IsTerm | src/BrainDump.js:77 | the line terminators at which the multiline `^` and `$` hold: line feed, carriage return, U+2028 and U+2029 |
| Text.IsLabelChar | src/BrainDump.js:77 | the class `[\S ]`: any character outside `\s`, or the plain space |
| Text.TrimEmptyIffAllWs | src/BrainDump.js:185 | `trim` gives the empty string exactly when the text is all whitespace, which is the blank-body test of the append |
| Text.TrimEnds | src/BrainDump.js:121 | a non-empty trimmed content begins and ends with a non-whitespace character |
| Text.Trim | src/BrainDump.js:121 | `String.prototype.trim`: drops the leading and trailing `\s` run; `TrimEmptyIffAllWs` and `TrimEnds` state what it yields (also used for :130, :185 and app.reducer.js:13, :39, :45) |
| Text.EndsWith | src/BrainDump.js:185 | `endsWith`; `EndsWithChar` states that a one-character suffix test holds exactly when the text is non-empty and ends with that character (also app.reducer.js:45) |
| Text.EndsWithChar | src/BrainDump.js:185 | `endsWith('\n')` holds exactly when the body is non-empty and its last character is a newline |
| Text.TrimWsFront | src/BrainDump.js:121 | whitespace in front of a text does not change its `trim` |
| Text.TrimWsBack | src/BrainDump.js:121 | whitespace after a text does not change its `trim` |
| Text.TrimTrimmed | src/BrainDump.js:121 | a text that is empty or begins and ends with non-whitespace is its own `trim` |
| Tildes.MatchAt | src/BrainDump.js:77 | a match starts at a line start with `~` and ends at a line end at least three characters later |
| Tildes.Backtrack | src/BrainDump.js:77 | the `\s+` backtracking finds an end past the `~ ` and at a line end, or fails |
| Tildes.Scan | src/BrainDump.js:104-105 | the leftmost-match global search shared by `match` (line 77 and 104) and `split` (line 105): one more text piece than matches; `ScanSpec` gives the interleaving |
| Tildes.ScanSpec | src/BrainDump.js:104-105 | the global search's text pieces and matches interleave back into the searched text; every match starts with `~` |
| Tildes.Strip | src/BrainDump.js:80 | `e.replace(/^~\s+/, '')`; `LineClassifier.StripTildeLine` states that on a tilde-line it leaves a non-empty label starting with non-whitespace, and `BrainDump.TildeOfLabel` that `~ ` plus a good label strips back to the label |
| Tildes.Labels | src/BrainDump.js:77-80 | the stripped matches, one label per match; `LabelsByLines` states them line by line |
| Tildes.Split | src/BrainDump.js:104-105 | `split` gives one more content than `match` gives tilde-lines, and contents and tilde-lines interleave back into the body |
| LineClassifier.LinesJoin | src/BrainDump.js:77 | the lines of two texts joined by a terminator are the lines of each, which is how `^`/`$` of the multiline flag see them |
| LineClassifier.SplitByLines | src/BrainDump.js:104-105 | on a body without dangling lines, the regex matches are exactly the tilde-lines of the line classifier, in body order |
| LineClassifier.LineSplit | src/BrainDump.js:104-105 | `match` and `split` read line by line: each tilde-line a match, the text in front of it a piece; one more piece than matches |
| LineClassifier.SplitIsLineSplit | src/BrainDump.js:104-105 | on a body without dangling lines, the regex's `match` and `split` together are exactly the line-by-line reading, pieces included |
| LineClassifier.LineSplitJoin | src/BrainDump.js:104-105 | the reading of two texts joined by a newline is the reading of each, with the last piece of the first, the newline and the first piece of the second made one piece |
| LineClassifier.StripTildeLine | src/BrainDump.js:80 | stripping a tilde-line leaves a non-empty label made of `[\S ]` and starting with non-whitespace, and the line is `~`, whitespace, then the label |
| LineClassifier.LabelsByLines | src/BrainDump.js:77-80 | on such a body the labels are the tilde-lines with `~` and the whitespace after it stripped; each is non-empty, starts with non-whitespace and is made only of `[\S ]` characters: no whitespace other than the plain space |
| BrainDump.Reorder | src/BrainDump.js:107-117 | a move keeps the length and is a permutation (same multiset) |
| BrainDump.ReorderAt | src/BrainDump.js:107-117 | the item at `from` lands at `to`, the items between shift by one towards `from`, all others stay put |
| BrainDump.ReorderSame | src/BrainDump.js:98-100 | moving an item onto its own place changes nothing, agreeing with the early return |
| BrainDump.ReorderKeepsHead | src/BrainDump.js:115-117 | contents move one place further on, so the text before the first tilde-line stays first |
| BrainDump.MapStripReorder | src/BrainDump.js:111-113 | stripping then moving equals moving then stripping, so the moved list matches the moved tilde-lines |
| BrainDump.UpdateBrainDumps | src/BrainDump.js:75-85 | an empty body leaves the list unchanged; no match gives the empty list; on a body without dangling lines the list is its stripped tilde-lines, in order |
| BrainDump.Reassembled | src/BrainDump.js:119-125 | the text after the first `i` rounds of the `forEach`, each round adding the trimmed content and, when the tilde-line is truthy, the tilde-line between blank lines; `ReassembledPrefix` states what it holds |
| BrainDump.ReassembledPrefix | src/BrainDump.js:119-125 | for pieces that are assemblable (single-line tilde-lines not ending in a space, inert trimmed contents), after `i` rounds (1 <= i <= number of tilde-lines) the built text holds exactly the first `i` tilde-lines and no dangling line, followed by a newline |
| BrainDump.JoinBody | src/BrainDump.js:119-130 | the `forEach` loop builds each trimmed content followed by its tilde-line between blank lines, and the result is trimmed (loop invariant against `Reassembled`) |
| BrainDump.MoveTildes | src/BrainDump.js:119-130 | the final `trim` of a reassembly removes only blank lines, so the rebuilt body holds exactly the given tilde-lines, in order, and no dangling line |
| BrainDump.MoveContents | src/BrainDump.js:119-130 | read back line by line, the rebuilt body has exactly the given tilde-lines, and its pieces trim to exactly the given contents |
| BrainDump.MovedBody | src/BrainDump.js:102-130 | the body `onDragEnd` dispatches; `MoveRoundTrip` states its labels, tilde-lines and contents on a well-formed body |
| BrainDump.MoveRoundTrip | src/BrainDump.js:104-130 | on a well-formed body the labels of the moved body are the old labels with item `from` moved to `to`; its tilde-lines are the old ones moved alike; it has no dangling line; and `split` of it gives back the old contents, trimmed, with content `from + 1` moved to `to + 1`, so every tilde-line and every content fragment stays present exactly once |
| BrainDump.Drag | src/BrainDump.js:102-133 | a drag moves tilde-lines, contents (one place on) and the displayed list alike; if the list was current and the body is well-formed (`WellFormed`), the new list equals the new body's labels |
| BrainDump.OnDragEnd | src/BrainDump.js:97-134 | nothing is dispatched when the drag is cancelled or dropped in place; a drag on a body where `match` finds no tilde-line faults (`Err(NoTildeLines)`: `match` gives `null` and `updatedTildes[i]` throws); otherwise the drag result, and if the list was current and the body well-formed, the new list equals the new body's labels |
| BrainDump.AppendTilde | src/BrainDump.js:185-189 | the old body is kept as a prefix and the result ends with `~ `, the label and a blank line |
| BrainDump.AppendTildes | src/BrainDump.js:185-189 | on an appendable body the append adds exactly the one tilde-line `~ label`, at the end of the list, and no dangling line |
| BrainDump.AppendRoundTrip | src/BrainDump.js:185-189 | the labels after an append are the old labels followed by the new label |
| BrainDump.AppendToBlank | src/BrainDump.js:185-186 | on the blank body `" "` the `~` does not start a line, so the new label is not read back |
| BrainDump.OnKeyPress | src/BrainDump.js:174-198 | only Enter with a non-empty input dispatches; the input is cleared then; the old body is a prefix of the new; on an appendable body (`Appendable`) with a good label (`GoodLabel`) the labels gain exactly the input |
| Store.FindIndex | src/app.reducer.js:54 | `findIndex` returns the first post with the selected id, or reports that none has it |
| Store.Remove | src/app.reducer.js:26 | `filter(post => post.id !== payload)`; never longer than its input; `RemoveSpec`, `RemoveAppend` and `RemoveOne` state what it keeps |
| Store.RemoveSpec | src/app.reducer.js:26 | the filter keeps exactly the posts whose id differs from the payload |
| Store.RemoveAppend | src/app.reducer.js:26 | the filter works post by post, so the survivors keep their relative order |
| Store.RemoveOne | src/app.reducer.js:26 | when only post `k` has the id, the filter takes out exactly that post |
| Store.RemoveUnique | src/app.reducer.js:26 | filtering keeps ids unique |
| Store.Apply | src/app.reducer.js:4-66 | the reducer; it fails exactly on ADD_BRAIN or UPDATE_BODY when no post has the selected id |
| Store.SelectionAfterDelete | src/app.reducer.js:28-34 | the selection after DELETE_POST; `DeletePostSpec` states its three cases |
| Store.WithBody | src/app.reducer.js:55 | the write to the selected post's body (also lines 46 and 48); `WithBodySpec` states that it changes only that body |
| Store.SelectedBody | src/BrainDump.js:67 | `state.posts.find(e => e.id === state.selectedPostId).body`: the body of the first post with the selected id, or none when no post has it; `WithBodySpec` and `UpdateBodySpec` state that it reads a written body back |
| Store.AddPostAppends | src/app.reducer.js:6-17 | ADD_POST appends one post with an empty body and the trimmed label, keeps the earlier posts, selects the new id and keeps the flag |
| Store.AddPostUnique | src/app.reducer.js:8-14 | with a fresh id, ADD_POST keeps ids unique and the new post is the one the selection finds |
| Store.DeletePostSpec | src/app.reducer.js:24-35 | DELETE_POST removes exactly the posts with the id; if the selected post was deleted the selection moves to the last remaining post or is cleared, otherwise it is unchanged |
| Store.DeletePostUnique | src/app.reducer.js:26 | DELETE_POST keeps ids unique; with unique ids it removes exactly the one post at its index |
| Store.SelectPostSpec | src/app.reducer.js:19-22 | SELECT_POST changes only the selection and accepts any id |
| Store.WithBodySpec | src/app.reducer.js:55 | writing the selected post's body changes that post's body only, and the selection reads the new body back |
| Store.UpdateBodySpec | src/app.reducer.js:52-56 | UPDATE_BODY with a present selection sets that post's body to the payload, and the selection reads it back |
| Store.AddBrainSpec | src/app.reducer.js:37-50 | ADD_BRAIN appends the trimmed label to the selected body as the sidebar's append does; on an appendable body with a good label the labels gain exactly that label |
| Store.TrimmedLabel | src/app.reducer.js:39 | a non-empty trimmed label made only of `[\S ]` characters (no whitespace other than the plain space) is a good label |
| Store.NoDisturbSpec | src/app.reducer.js:58-61 | a `true` payload sets the flag; any other payload, `false` included, toggles it; nothing else changes |
| Store.ToggleTwice | src/app.reducer.js:60 | two toggles cancel out |
| Store.OtherUnchanged | src/app.reducer.js:63-64 | an unknown action returns the state unchanged |
| Store.AddPostThenBrain | src/app.reducer.js:37-50 | after ADD_POST with a fresh id and then ADD_BRAIN, the selected body is exactly the one tilde-line and its one label is the trimmed label |

## Left out

- The React components, styling, focus effects, drag-and-drop machinery and the post list UI. Each handler is modelled as a function or method of the values it reads. The `setBrainDumps` and `setNewBrainDump` calls become returned values.
- The 500 ms debounce and the `immediate` flag that bypasses it (src/BrainDump.js:87-95). These are timers. `UpdateBrainDumps` is the function the effect runs.
- Slate serialisation. `Plain.serialize` and `Plain.deserialize` are taken as the identity, so a body is its plain text.
- `reorder`. Its module, helpers.js, is not part of this model. `Reorder` assumes the usual meaning: take the item out at `from` and insert it at `to`. `produce` returns a fresh copy, so the in-place splice of the draft is modelled on values.
- `uniqid`. The new id is the `newId` parameter of `Apply`.
- The UPDATE_BODY payload. The reducer stores whatever `payload` is (src/app.reducer.js:55), and the sidebar passes an object `{body, immediate}`. The model's payload is the new body text.
- Store.NoDisturbSpec: the payload is modelled as an optional boolean. A truthy payload that is not a boolean would be stored as is; that case is not modelled. An unset flag is modelled as `false`, which has the same truthiness.
- The sidebar's handlers take the body of the selected post. A missing selected post, where the component itself would throw, is not modelled there.
- JavaScript strings are UTF-16 code units; the model's strings are Unicode characters. No character of `\s` or of the line terminators is a surrogate, so the regex and `trim` behave the same.
- BrainDump.MoveRoundTrip, BrainDump.Drag, BrainDump.OnDragEnd: the label and content round trips are proved only for well-formed bodies. Contents are read back trimmed, because the reassembly trims each one. Such a body has no dangling line. Each trimmed content has no tilde-line or dangling line once it starts a line. No tilde-line ends in a space, which the final `trim` could remove.
- BrainDump.OnDragEnd, BrainDump.Drag: a drag on a body that has tilde-lines is modelled only when both indices fall inside the body's tilde-lines (`Movable`) and inside the displayed list. The list can be stale: an empty body leaves the old list in place (`UpdateBrainDumps` skips it), and the 500 ms debounce can lag behind the body. A drag from a stale list on an empty body is the modelled `NoTildeLines` fault. On a body with fewer tilde-lines than the list, the source calls `reorder` with an index out of range. What `reorder` does then is unknown, because helpers.js is not part of this model.
- BrainDump.AppendRoundTrip, BrainDump.OnKeyPress: the label round trip is proved only when the body has no dangling line and a blank body is empty or ends in a line terminator. The label must be non-empty, start with non-whitespace and be made only of `[\S ]` characters: no whitespace other than the plain space (no tab, line break, U+00A0, U+3000, …). A label holding such a character is not read back as itself. BrainDump.AppendToBlank shows that a body of one space loses the new label.
- BrainDump.UpdateBrainDumps: the labels are stated through the line classifier only for bodies without dangling lines. For the others the function still computes the exact regex result.
- Store.AddBrainSpec: the label round trip needs the same conditions as BrainDump.AppendRoundTrip. No shown file dispatches ADD_BRAIN, so nothing establishes that the trimmed label is a good label.
