# To-do widget: task list, XP ledger and focus timer

A Dafny model of the state core of a single-page to-do widget (`script.js`). The widget
keeps a list of tasks (`todo`: text, a `disabled` flag meaning "completed", and an
`xpAwarded` flag) and an XP ledger (`stats`: `xp` and `level`). Completing a task earns
one XP, once. Unchecking it takes the XP back, never going below zero. The level is
always `floor(xp / 10)`. A focus panel picks a task to work on and runs a countdown of
1 to 180 minutes.

Modules:

- `Text` (`text.dfy`): ECMAScript `trim`, `toString` for non-negative integers up to 2^53 and
  `padStart(2, '0')`, with the read-back lemmas.
- `Tasks` (`tasks.dfy`): the task record, `splice` positions, remove/insert/move, the
  focus-task choice, and the count of tasks that hold an XP.
- `Ledger` (`ledger.dfy`): level, award, revoke, "XP left", and what one checkbox flip
  does to a task and the ledger.
- `Board` (`board.dfy`): class `TaskBoard` holding `todo` and `stats`, with one method
  per control that changes them, and the drop handler as written versus corrected.
- `Focus` (`focus.dfy`): the countdown state and its transitions, class `FocusTimer`,
  and the MM:SS display.
- `Wrappers` (`wrappers.dfy`): `Option`, for a parse that may yield NaN and for a storage
  key that may be absent.

Inputs the page gets from the browser are parameters:

- the answer to `confirm(...)` is a `bool`;
- `parseInt` results are `Option<int>`;
- the stored list and ledger read at startup are `Option`s;
- one firing of the one-second interval is one call to `FocusTimer.Tick`.

The model follows the code, except the drop (see ## Findings). Completed tasks stay in the list with `disabled` set. There
is no separate completed archive, no restore operation and no resume. Pressing Start
after Pause begins a full new session (script.js:348).

`TaskBoard.Consistent()` holds on a fresh start and every operation preserves it:

- every task has a non-empty trimmed text;
- only a completed task holds an XP;
- the level matches the XP;
- the ledger holds at least one XP for every task that earned one.

The last point means unchecking a task never meets the floor at zero.

## Model

| member | source | states |
|---|---|---|
| `Text.Trim` | script.js:79 | the trimmed text has no strippable code point (ECMAScript WhiteSpace or LineTerminator) at either end and is no longer than the input |
| `Text.TrimOfPadded` | script.js:79 | trimming a trimmed core padded on both sides with strippable code points gives back exactly that core |
| `Text.TrimIdempotent` | script.js:111-113 | trimming an already trimmed text changes nothing, so stored task texts are fixed points of `trim` |
| `Text.TrimBlank` | script.js:79-80 | the trimmed input is `""` exactly when every code point of the input is strippable |
| `Text.DecimalString` | script.js:334-335 | `n.toString()` for a non-negative integer up to 2^53 is a non-empty string of decimal digits with no leading zero unless it is `0` itself |
| `Text.DecimalStringReadsBack` | script.js:334-335 | for a non-negative integer up to 2^53, `n.toString()` yields a digit string whose decimal value is `n` |
| `Text.PadStart2` | script.js:334-335 | `padStart(2, '0')` pads with leading zeros up to two characters and never truncates |
| `Text.PaddedReadsBack` | script.js:334-335 | a zero-padded decimal string still reads back as the number |
| `Tasks.SpliceStart` | script.js:231-232 | the start position `splice` uses: a negative argument counts from the end, and the result is clamped to `0..length` |
| `Tasks.Removed` | script.js:208 | `splice(i, 1)` leaves the list one shorter, entries before `i` in place and later ones shifted down, with the multiset less exactly `todo[i]` |
| `Tasks.Inserted` | script.js:232 | `splice(j, 0, x)` puts `x` at `j`, shifts later entries up, and adds exactly `x` to the multiset |
| `Tasks.Moved` | script.js:231-232 | remove-then-insert keeps the length and the multiset of tasks, puts the moved task at the target, and keeps the relative order of the others |
| `Tasks.MovedInPlace` | script.js:230-232 | a move onto the task's own position leaves the list unchanged |
| `Tasks.MovedBack` | script.js:231-232 | dragging the moved task back to its old position restores the list |
| `Tasks.FindOpen` | script.js:290 | `findIndex(t => !t.disabled)` is -1 exactly when every task is completed; otherwise it is an open task with only completed tasks before it |
| `Tasks.FocusIndex` | script.js:287-291 | nothing for an empty list; otherwise the first open task, or index 0 when every task is completed |
| `Ledger.LevelOf` | script.js:138 | the level is the number of whole ten-XP steps: `10*level <= xp < 10*(level+1)` |
| `Ledger.Award` | script.js:136-139 | one XP more with the level recomputed; on an in-sync ledger the level rises by one exactly when the new XP is a multiple of ten |
| `Ledger.Revoke` | script.js:144-147 | one XP less but never below zero, with the level recomputed and never higher than before |
| `Ledger.RevokeUndoesAward` | script.js:134-150 | on an in-sync ledger, revoking right after awarding restores the ledger |
| `Ledger.AwardUndoesRevoke` | script.js:134-150 | on an in-sync ledger with positive XP, awarding right after revoking restores the ledger |
| `Ledger.XpLeft` | script.js:277-278 | "XP left" is 0 exactly when the XP has reached `(level+1)*10`, and otherwise is the distance to it; on an in-sync ledger it lies between 1 and 10 |
| `Ledger.XpLeftReachesNextLevel` | script.js:277-278 | on an in-sync ledger, exactly "XP left" awards raise the level by one, and fewer awards leave it unchanged |
| `Ledger.ToggleOutcome` | script.js:130-150 | a flip inverts `disabled` and keeps the text; completing an unawarded task adds one XP; completing an awarded task adds none; unchecking an awarded task removes one XP floored at zero; `xpAwarded` then equals `disabled`; a changed ledger is in sync, and so is the ledger after any flip of a task whose award flag matches its completed flag, even when the stored level was stale |
| `Ledger.ToggleTwiceRestores` | script.js:130-150 | checking then unchecking (or the reverse) restores the task and the ledger when the flags agree and the XP is on the ledger |
| `Ledger.TogglesCannotFarmXp` | script.js:134-150 | after any number of flips, the ledger differs from the start only by the task's own award status, so XP cannot be farmed |
| `Board.DropAsWritten` | script.js:228-232 | the drop handler as written: the list either keeps its length or grows by one |
| `Board.DropPastEndInsertsUndefined` | script.js:228-232 | a parsed `fromIndex` at or past the end of the list puts `undefined` into the list and grows it by one |
| `Board.Dropped` | script.js:228-232 | the corrected drop is a no-op on an unparsed index, equal indices, or a source position at or past the end of the list; otherwise it permutes the list, with the moved task at the target and the other tasks in their order |
| `Board.DroppedAgreesWhenDefined` | script.js:228-232 | wherever the drop as written leaves no `undefined`, the corrected drop gives the same list |
| `Board.TaskBoard.constructor` | script.js:3-5 | at startup the stored list and ledger are used when present, else `[]` and `{xp: 0, level: 0}`; the fresh state is consistent |
| `Board.TaskBoard.AddTask` | script.js:78-88 | a non-blank input appends exactly one open, unawarded task with the trimmed text; a blank input changes nothing; earlier tasks and the ledger are untouched |
| `Board.TaskBoard.CommitEdit` | script.js:110-117 | blank text changes nothing; non-blank text replaces only `todo[index].text` with the trimmed text; an index naming no task raises a TypeError and changes nothing |
| `Board.TaskBoard.ToggleTaskStatus` | script.js:127-150 | an index naming no task changes nothing; otherwise only that task changes, as `ToggleOutcome` says, and consistency is kept; on a consistent board, unchecking an awarded task takes exactly one XP off, never meeting the floor at zero |
| `Board.TaskBoard.DeleteTask` | script.js:199-211 | the task goes exactly when the index names a task and it is completed or the user confirmed; exactly that one entry is removed; the ledger is untouched |
| `Board.TaskBoard.DeleteAllTasks` | script.js:89-94 | the list is emptied only on confirmation; the ledger is never touched |
| `Board.TaskBoard.DropTask` | script.js:225-235 | the list becomes the corrected drop of the old list; the ledger is untouched; consistency is kept |
| `Focus.SessionMinutes` | script.js:343-346 | the session length is between 1 and 180 minutes: the parsed value when it is within range, 180 above it, and 25 when the value did not parse or is not positive |
| `Focus.Started` | script.js:339-350 | start does nothing while running; otherwise the timer runs with the session length in seconds |
| `Focus.Ticked` | script.js:351-358 | a tick at zero or below stops the timer without counting down; otherwise it takes exactly one second off, so a non-negative timer stays non-negative |
| `Focus.Paused` | script.js:363-367 | pause keeps the remaining time and leaves the timer not running |
| `Focus.TicksStayInRange` | script.js:351-358 | no number of ticks takes the remaining time below 0, above 180 minutes, or above where it started |
| `Focus.TicksCountDown` | script.js:351-358 | a running timer loses exactly one second per tick until zero |
| `Focus.SessionCompletes` | script.js:339-360 | a fresh session reaches 0:00 still running after exactly its length in seconds; the next tick completes it, and later ticks change nothing |
| `Focus.StartAfterPauseRestarts` | script.js:339-367 | pressing start after pause begins a full new session instead of resuming |
| `Focus.Display` | script.js:331-336 | the timer text is at least five characters long, with the colon third from the end |
| `Focus.DisplayFields` | script.js:334-336 | the digits before the colon read back as the whole minutes `remaining / 60`, and the two digits after it as the seconds left over `remaining % 60` |
| `Focus.DisplayReadsBack` | script.js:334-336 | reading the MM:SS text back (minute digits, colon, two second digits) gives the remaining seconds |
| `Focus.DisplayInjective` | script.js:334-336 | two different remaining times never show the same text |
| `Focus.DisplayWidth` | script.js:334-336 | below 100 minutes the text is exactly `MM:SS`; up to 180 minutes it is at most six characters long |
| `Focus.FocusTimer.constructor` | script.js:31-32 | the timer starts at 25 minutes, not running |
| `Focus.FocusTimer.OpenFocusMode` | script.js:286-329 | an empty list changes nothing (the user is alerted); otherwise the focus task is chosen as `FocusIndex` says and the timer resets to 25 minutes, not running |
| `Focus.FocusTimer.StartFocusTimer` | script.js:339-350 | the new state is `Started` of the old one, and the range invariant is kept |
| `Focus.FocusTimer.Tick` | script.js:351-360 | the new state is `Ticked` of the old one; the completion alert fires exactly when the remaining time was at or below zero |
| `Focus.FocusTimer.PauseFocusTimer` | script.js:363-367 | the new state is `Paused` of the old one |
| `Focus.FocusTimer.StopFocusTimer` | script.js:369-374 | the timer is reset to 1500 seconds, not running |
| `Focus.FocusTimer.CloseFocusMode` | script.js:376-379 | closing the panel stops the timer as Stop does |
| `Focus.FocusTimer.DisplayText` | script.js:331-336 | the shown text reads back as the remaining seconds |

## Left out

- Rendering (`displayTasks`, element creation, `innerHTML`, CSS classes, drag visual states), event wiring, themes (`applyTheme`, `setupThemeControls`) and the badge in `renderStats`: these are presentation only.
- Persistence: the `localStorage` writes after each change are not modelled. The startup read is modelled only through the constructor's inputs. `JSON.parse` throws on malformed stored data; the model claims no fallback for that case.
- Stored records with missing fields: the model's `Stats` always has a numeric `xp` and `level`. So the `stats.xp || 0` default and the `typeof stats.level` check in `renderStats` are not modelled. A task without `xpAwarded` is modelled as `false`, the value JavaScript's falsy check gives it. That covers stored tasks and every task `addTask` creates, since it pushes `{text, disabled: false}` without the field (script.js:81-83); `AddTask`'s `false` stands for that absent field until the task is first completed.
- Interval bookkeeping (`setInterval`, `clearInterval`, `focusTimerId`): the model knows only `running`. Opening the panel while a session runs sets `running` to false without clearing the interval. The model cannot show that orphaned interval or a second one started after it.
- `alert` is modelled as a result: `OpenFocusMode` returns `None`, and `Tick` returns `completed`. The focus task's text written into the panel is modelled only as its index.
- Editing: entering and leaving edit mode, and the Escape key, only re-render. Only committing the edit is modelled.
- Numbers: JavaScript numbers are IEEE doubles; the model uses unbounded `int` and `nat`. Every number the widget computes (XP counts, levels, list indices, at most 10800 seconds) is a small integer, on which doubles and integers agree. `DecimalString` matches `toString` only for integers up to 2^53: above that `toString` prints the shortest digits that round back to the double (so `2**64` prints as `18446744073709552000`), and from 10^21 on it uses exponent notation.
- Strings are sequences of Unicode scalar values; JavaScript strings are UTF-16 code units. Every code point `trim` strips lies in the Basic Multilingual Plane, so trimming agrees for well-formed text.

## Findings

| source | as written | input that shows it | evidently intended | confidence | as-written member | corrected member |
|---|---|---|---|---|---|---|
| script.js:228-232 | The guard rejects only unparsable or equal indices. A parsed `fromIndex` at or past the end of the list passes it, `splice(fromIndex, 1)` removes nothing, and `splice(toIndex, 0, moved)` inserts `undefined`. | A one-task list `[A]` with the text "5" dragged in from outside the list and dropped on A: `todo` becomes `[undefined, A]`, and rendering then reads `disabled` of `undefined`. | A drop whose parsed source position is at or past the end of the list leaves the list unchanged. A negative source position still counts from the end, as `splice` does, in both versions. | medium, not executed | `Board.DropPastEndInsertsUndefined` | `Board.TaskBoard.DropTask` |
