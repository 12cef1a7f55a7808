# Extension bisect: a verified model of the search

The popup of this browser extension finds the one installed extension that
causes a problem. It switches half of the suspects off, asks the user whether
the problem is still there ("Good" or "Bad"), and halves the suspect range
until a single extension is left. This project models that search state
machine in Dafny and proves its properties.

* `Bisection.dfy` — module `Bisection`, the pure arithmetic:
  * the split point `Mid` (`get_mid`) and the estimate `StepsLeft` (`get_steps_left`);
  * one round on a suspect range `[left, right)`, split at `mid` (`GoodStep`, `BadStep`, `Step`);
  * the enable rule `InEnabledHalf` (`mid <= i < right`);
  * `Search`, a whole search under truthful answers for a hidden culprit `c`, with lemmas that it reports `c` and that it takes between `floor(log2 N)` and `ceil(log2 N)` rounds.
* `Extensions.dfy` — module `Extensions`:
  * the extension record and the candidate filter applied at start (`enabled && mayDisable && id != self`);
  * the colour rule of the popup's list.
* `Session.dfy` — module `Session`:
  * class `StorageData`, whose fields mirror the popup's `storageData` record;
  * a map `browserEnabled` holding the browser's enabled flag per extension id;
  * one method per operation (`Start`, `Good`, `Bad`, `Finish`, `Reset`), plus the two toggling loops and the list-building loop;
  * `RunToCompletion` and `Bisect`, which play the user's side with truthful answers and prove that the session ends with the culprit's index.

A state is `Valid()` whenever the popup waits for the user. Then:
* `0 <= left <= right <= N` and `mid == floor((left+right)/2)`;
* during a round, `right - left >= 2` (or there are no candidates at all), and the browser has exactly the candidates `mid <= i < right` switched on;
* once a culprit is recorded, `right == left + 1`, `brokenExtIndex == left`, the search is over and every candidate is switched back on;
* otherwise the record is idle (all zero, empty list).

The weaker `Consistent()` also admits the record saved after `brokenExtIndex` is set but before `finish` has run. The popup runs `finish` again when it finds such a record on opening. Other saved records need not be `Consistent()`: `start_bisect`, `good_bisect` and `bad_bisect` save the new range before switching anything (main.js:141, 177, 194). `Reset` therefore accepts any record at all.

The code is looser than a stand-alone search engine would be. In each of these points the model follows the code:
* `good_bisect` and `bad_bisect` do not check that a search is in progress. Only the popup's buttons prevent that. `Good` and `Bad` therefore *require* `bisectIsInProgress && brokenExtIndex == -1`, which is the state in which those buttons are enabled.
* `start_bisect` does not clear `brokenExtIndex`, and nothing in it rejects an active search. Its button is enabled only on an idle record, so `Start` requires `!bisectIsInProgress && brokenExtIndex == -1`.
* An empty candidate list is not rejected. `Start` with no candidates leaves the search in progress over `[0, 0)`. `Good` and `Bad` then leave that state unchanged and never finish (`EmptyRangeIsStuck`, and the contracts of `Good`/`Bad`). Only `Reset` leaves it.
* Extension ids are unique in the browser. `Start` requires that of its input, and `CandidatesDistinct` carries it over to the candidate list. Without it, "candidate i is switched on iff `mid <= i < right`" could not hold.

## Model

| member | source | states |
|---|---|---|
| Bisection.Mid | main.js:158-160 | the split point is the floor of the midpoint; inside `[left, right]`, and strictly inside whenever `right - left >= 2`, so both halves are non-empty |
| Bisection.FloorLog2 | main.js:154-156 | `2^k <= n < 2^(k+1)`: the integer floor of log2 |
| Bisection.StepsLeft | main.js:154-156 | the "steps left" figure is floor(log2(right - left)), defined for a non-empty range |
| Bisection.StepShrinks | main.js:173-206 | after Good or Bad the range is well formed, lies inside the old one, and its width is between floor(w/2) and ceil(w/2), strictly less than w |
| Bisection.StepKeepsCulprit | main.js:173-206 | the culprit stays among the suspects after a round exactly when the answer was Bad iff the culprit is in the enabled half |
| Bisection.EmptyRangeIsStuck | main.js:139-143 | with zero candidates both answers leave the range `[0, 0)` unchanged and never reach width 1 |
| Bisection.Search | main.js:173-206 | a search answered round after round reports an index inside the starting range, and takes no round exactly when one suspect is left |
| Bisection.SearchFindsCulprit | main.js:173-206 | starting with the culprit among the suspects, truthful answers end on the culprit's index |
| Bisection.SearchRoundsAtLeast | main.js:173-206 | every search takes at least floor(log2 w) rounds |
| Bisection.SearchRoundsAtMost | main.js:173-206 | every search takes at most ceil(log2 w) rounds |
| Bisection.SearchRounds | main.js:154-156 | the "steps left" shown at the start is a lower bound on the rounds, and ceil(log2 w) an upper bound |
| Bisection.StepsLeftEstimate | main.js:154-156 | the displayed estimate floor(log2 n) is at most one below the worst case ceil(log2 n) |
| Extensions.Candidates | main.js:137 | an extension is a candidate iff it is installed, enabled, may be disabled and is not the popup's own extension |
| Extensions.CandidatesAppend | main.js:137 | the filter distributes over concatenation, so the candidates keep the browser's order |
| Extensions.CandidatesDistinct | main.js:137 | distinct ids among the installed extensions stay distinct among the candidates |
| Extensions.ColourDuringRound | main.js:98-103 | during a round a row is coral iff in the disabled half, green iff in the enabled half, transparent iff outside the range |
| Extensions.ColourWhenFound | main.js:98-103 | once the culprit is found its row is coral and every other row is transparent |
| Session.StorageData.constructor | main.js:12-22 | the initial record is idle and valid |
| Session.StorageData.ApplyPartition | main.js:162-165 | afterwards the browser has candidate i on iff `mid <= i < right`; no other extension's flag changes |
| Session.StorageData.EnableAll | main.js:220-225 | afterwards every candidate is on; no other extension's flag changes |
| Session.StorageData.Start | main.js:133-152 | candidates are the filtered list, range `[0, N)` split at N/2; with one candidate it is found at once (index 0) and the search is over, otherwise the search is on with the partition applied |
| Session.StorageData.Good | main.js:173-189 | right becomes the old mid and mid is recomputed, left and the list unchanged; if one suspect is left it is recorded and the search ends, otherwise it stays on |
| Session.StorageData.Bad | main.js:191-206 | left becomes the old mid and mid is recomputed, right and the list unchanged; if one suspect is left it is recorded and the search ends, otherwise it stays on |
| Session.StorageData.Conclude | main.js:181-185 | with one suspect left it is recorded as the culprit, the search ends and every candidate is back on; range and list are kept |
| Session.StorageData.Finish | main.js:208-218 | with a culprit recorded: the search ends, culprit and range are kept and every candidate is switched on; without one it is a reset |
| Session.StorageData.Reset | main.js:227-251 | from any record, in any phase: every candidate is switched on and the record is idle; on an idle record nothing changes, so a second reset is a no-op |
| Session.StorageData.ListItems | main.js:84-108 | one row per candidate, checked by the enable rule and coloured by the colour rule; during a round the checkboxes match the browser; once found only the culprit's box is checked |
| Session.Round | main.js:173-206 | answering Bad exactly when the culprit is switched on in the browser performs the truthful round: the range narrows, the culprit stays inside it, and if the search ended the culprit is recorded; no other extension's flag changes |
| Session.RunToCompletion | main.js:173-206 | round after round of truthful answers ends the search with `brokenExtIndex == c`, in exactly the rounds the pure `Search` counts; no other extension's flag changes |
| Session.Bisect | main.js:133-206 | from an idle record, Start followed by truthful answers reports the culprit's index in the original candidate list, with every candidate back on, within ceil(log2 N) rounds; no other extension's flag changes, and when the extension list passed to Start reports the browser's flags the browser ends exactly as it began |
| Session.RestoredWhenAllEnabled | main.js:137 | candidates were enabled when listed, so switching them all back on without touching anything else restores the browser's flags |
| Bisection.GoodAtWidthOneCollapses | main.js:174-176 | Good on a one-suspect range collapses it to the empty range `[l, l)`, which no answer leaves |

## Left out

- The calls to `chrome.management`, `chrome.storage.local` and `chrome.tabs`. They are asynchronous browser I/O. Switching an extension on or off becomes an update of the `browserEnabled` map. `getAll` and `getSelf` become the parameters `all` and `selfId` of `Start`. Storage and tab reloads are not modelled.
- Saving and restoring the record, and the startup path (main.js:32-42). Persistence is I/O. The model covers only part of its effect: `Finish` accepts any `Consistent()` record, which includes one saved between setting the culprit and running `finish`, and `Reset` accepts any record.
- Records saved between setting a new range and applying its toggles (main.js:141, 177, 194). A popup closed at that moment leaves the browser's flags out of step with the range, and in the last round it leaves an in-progress range of width 1 with no culprit recorded. `Good` and `Bad` do not accept such a record. In the source, Good from it collapses the range to the empty `[l, l)` (main.js:174-176), and the search can then never finish (`GoodAtWidthOneCollapses`). Only `Reset` leaves that state.
- Failures of the browser calls. A rejected `chrome.management.setEnabled` (main.js:164, 223) or `chrome.storage.local.set` aborts the handler midway. After main.js:177 or 194 that leaves the new range saved and its toggles only partly applied. The model assumes every call succeeds, and the `PartitionApplied()` part of `Valid()` rests on that assumption.
- The `reloadPageEachTime` flag. This includes `reset` clearing it when a culprit was recorded (main.js:232). It only decides whether the page is reloaded and has no effect on the search.
- The popup's DOM: status text, button enabling, `create_li`, `remove_extensions_list` and the debug bar. Button enabling appears only as the preconditions of `Start`, `Good` and `Bad`.
- The `console.log` consistency check in `force_recreate_extensions_list` (main.js:93-96). `ListItems` proves that during a round the checkboxes agree with the browser. After the search ends every candidate is back on, but only the culprit's box is checked, so that check would report every other candidate.
- `inspectingLeftIndex` and `inspectingRightIndex`: no code reads or writes them.
- The event listeners and `async`/`await` ordering. The model is sequential, and each operation is atomic.
- StepsLeft: `Math.floor(Math.log2(...))` is floating point. It is modelled as the exact integer floor of log2, so it is defined only for `right - left >= 1`. With zero candidates the popup shows `-Infinity`, and the model does not cover that.
- Reporting a wrong-phase call as an error: the code has no such check, so the model states the phase as preconditions.
- Several hidden culprits: the search still ends on some index, but nothing is claimed about which one.
