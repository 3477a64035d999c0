# Chord loop widget — Dafny model

This project models the state logic of the chord loop widget in `public/Chord-ui.js`
(`initChordUI`). The widget is a 4 × 8 step sequencer: one row per voice (kick, snare,
hat, chime) and one column per step. Pads toggle on and off. A Stopped/Playing scheduler
walks a cursor over the 8 steps and fires a tone for every active row. Clear empties the
grid and deletes the saved entry. The matrix is saved per calendar day to a key-value
store when the page hides, but only if some pad is on.

The model is functional. The widget is an immutable record (`LoopWidget.Widget`) and
every event handler is a pure transition over it:

- `Wrappers`: `Option`.
- `Json`: parsed JSON values (RFC 8259) and JavaScript truthiness (`Boolean(v)`).
- `Grid`: the voice table, the matrix, toggle and the active-cell count.
- `Decimal`: how `${n}` writes a count into the status line.
- `Persistence`: the store, the day key, the encoder and the lenient decoder.
- `LoopWidget`: widget state, its invariant `Valid`, start-up, toggle, step, timer tick,
  start, stop, the play button, clear, save-on-hide, and the lemmas relating them.

The environment is abstract:

- Audio support is the `supported` argument of `Start`. The acquired audio context is
  the `audioReady` flag.
- The interval timer is the `timerActive` flag. Its ticks are explicit `TimerTick` calls,
  and `Run` applies n of them.
- The tones of one step are the set of rows that fired.
- `localStorage` is a `map<string, Stored>`.
- The day is an opaque `today` string, joined to the `chord-loop:` prefix.

A stored array with the wrong number of rows abandons the load and leaves the current
matrix as it was (`Persistence.Load`); at start-up that matrix is the empty one
(`LoopWidget.InitWrongRowCount`).

## Model

| member | source | states |
|---|---|---|
| Grid.Empty | public/Chord-ui.js:66-68 | the fresh matrix has 4 rows of 8 cells and every cell is off |
| Grid.Flip | public/Chord-ui.js:99-100 | toggling (r, s) negates that cell, leaves every other cell as it was, and keeps the 4 × 8 shape |
| Grid.FlipInvolutive | public/Chord-ui.js:99-100 | toggling the same pad twice restores the original matrix |
| Grid.CountActive | public/Chord-ui.js:124-132 | the row-by-row, step-by-step scan returns the number of cells that are on, and that number is at most 32 |
| Grid.CountBounds | public/Chord-ui.js:124-132 | the active count of a widget matrix lies in [0, ROWS.length × STEPS] = [0, 32] |
| Grid.CountFlip | public/Chord-ui.js:99-100 | one toggle lowers the count by one if the pad was on and raises it by one if it was off |
| Grid.CountZeroIffEmpty | public/Chord-ui.js:124-132 | a count of zero holds exactly when the matrix equals the empty matrix |
| Decimal.ToDecimal | public/Chord-ui.js:137 | the interpolated count is a non-empty string of decimal digits with no leading zero |
| Decimal.DecimalRoundTrip | public/Chord-ui.js:137 | reading the interpolated digits back gives the count |
| Decimal.DecimalInjective | public/Chord-ui.js:137 | two counts give the same text only when they are equal |
| Json.FromBool | public/Chord-ui.js:92 | a serialised cell is a JSON boolean whose truthiness is the cell's value |
| Persistence.StorageKey | public/Chord-ui.js:24-25 | the store key is the `chord-loop:` prefix followed by the day string |
| Persistence.EncodeRow | public/Chord-ui.js:92 | a serialised row is an array with one boolean per cell, in order |
| Persistence.Encode | public/Chord-ui.js:92 | the serialised matrix is an array holding one serialised row per matrix row |
| Persistence.DecodeRow | public/Chord-ui.js:77-80 | a row that is not an array of 8 items becomes 8 false cells; otherwise cell s is the truthiness of item s |
| Persistence.Decode | public/Chord-ui.js:75-81 | decoding succeeds exactly when the value is an array of 4 items; a success is always 4 × 8 and decodes row by row |
| Persistence.Load | public/Chord-ui.js:70-88 | a missing key, blank or unparsable text, or a wrong outer shape leaves the matrix unchanged; otherwise the decoded matrix replaces it |
| Persistence.EncodeDecodeRow | public/Chord-ui.js:77-80 | decoding an encoded 8-cell row gives the row back |
| Persistence.EncodeDecodeRoundTrip | public/Chord-ui.js:75-92 | decoding the encoding of a 4 × 8 matrix gives back the same matrix |
| Persistence.LoadKeepsShape | public/Chord-ui.js:75-81 | whatever the store holds, loading over a 4 × 8 matrix yields a 4 × 8 matrix |
| Persistence.SaveLoadRoundTrip | public/Chord-ui.js:70-97 | after saving a matrix under a key, loading that key succeeds and yields that matrix, whatever was in memory |
| Persistence.LoadRowByRow | public/Chord-ui.js:76-81 | with the right row count, a row of the wrong length loads all false, and every well-formed row loads by cell truthiness |
| LoopWidget.StatusText | public/Chord-ui.js:134-138 | the status is "Playing" or "Stopped", then " · ", then the count's digits, then " active steps" |
| LoopWidget.StatusTextInjective | public/Chord-ui.js:134-138 | two status lines are equal exactly when their play states and counts are equal |
| LoopWidget.RefreshStatus | public/Chord-ui.js:134-138 | updateStatus writes the status for the current play state and count and changes nothing else |
| LoopWidget.Fresh | public/Chord-ui.js:36-41 | the declared state has the empty matrix, is stopped with no timer, cursor 0, no audio context and no lit step, uses the day's key and the given store, and satisfies the widget invariant |
| LoopWidget.LoadSaved | public/Chord-ui.js:70-88 | a successful load replaces the matrix, writes "Saved for today" and refreshes the status, and changes nothing else; any other outcome changes nothing |
| LoopWidget.Init | public/Chord-ui.js:253-255 | start-up is valid and stopped with no timer, no audio context, cursor 0 and no lit step; it holds the day's loaded matrix (else the empty one), reads "Saved for today" exactly when the load succeeded, and shows the stopped status |
| LoopWidget.InitWrongRowCount | public/Chord-ui.js:75 | a saved array with the wrong number of rows abandons the load: the widget starts empty, with count 0 and no "saved" text |
| LoopWidget.FirstPlayWithoutAudio | public/Chord-ui.js:193-196 | the first play press after start-up in a browser without audio fires nothing, stays stopped with no timer and changes only the status, to "Audio not supported in this browser." |
| LoopWidget.Toggle | public/Chord-ui.js:99-104 | a pad click flips only that pad, moves the count by exactly one, refreshes the status, marks the loop unsaved, and preserves the invariant |
| LoopWidget.ToggleTwice | public/Chord-ui.js:99-104 | two clicks on the same pad restore the matrix; only the status and loop-state texts differ |
| LoopWidget.FiredRows | public/Chord-ui.js:182-186 | a row fires exactly when its pad at the given step is on |
| LoopWidget.Step | public/Chord-ui.js:179-189 | a step lights the pre-advance cursor, fires exactly the rows active at it (if audio exists), and moves the cursor to (cursor + 1) mod 8, staying in [0, 8) |
| LoopWidget.TimerTick | public/Chord-ui.js:202 | a tick is a step while the timer is live and does nothing otherwise; it preserves the invariant |
| LoopWidget.RunCursor | public/Chord-ui.js:188 | after n ticks while playing, the cursor is (cursor + n) mod 8 and only the cursor and the lit step have changed |
| LoopWidget.RunFullCycles | public/Chord-ui.js:188 | after 8·k ticks the cursor is back where it started, from any cursor value |
| LoopWidget.RunWhileStopped | public/Chord-ui.js:207-213 | once stopped there is no timer, so any number of ticks leaves the widget unchanged |
| LoopWidget.Start | public/Chord-ui.js:191-205 | no-op while playing; without audio it only shows "Audio not supported in this browser." and stays stopped with no timer; with audio it plays with the timer on, having fired step 0's rows, so the cursor is 1, and changes nothing but the play state, timer, audio, cursor, lit step, button label and status |
| LoopWidget.Stop | public/Chord-ui.js:207-217 | no-op while stopped; otherwise it ends stopped with no timer and no lit step, shows "Play loop" and the stopped status, and changes nothing else (pads, cursor, key and store kept) |
| LoopWidget.PlayButton | public/Chord-ui.js:219-225 | the button stops a playing widget and starts a stopped one; afterwards it is playing exactly when it was stopped and audio was available |
| LoopWidget.PlayThenStop | public/Chord-ui.js:219-225 | two presses with audio available end stopped with no timer or lit step, the same pads and store, and the stopped status |
| LoopWidget.Clear | public/Chord-ui.js:227-238 | clear first stops (so a playing widget loses its timer and lit step and shows "Play loop"), then all 32 pads are off with count 0, the status reads "Stopped · 0 active steps", the loop reads "Unsaved live loop", and the store is the old one minus the day key; nothing else changes and the invariant is kept |
| LoopWidget.ClearIdempotent | public/Chord-ui.js:227-238 | clearing twice gives the same state as clearing once |
| LoopWidget.SaveMatrix | public/Chord-ui.js:90-97 | saving writes the encoded matrix under the day key, leaves the other keys alone, and shows "Saved for today" |
| LoopWidget.SaveHandler | public/Chord-ui.js:241-245 | with no active pad the handler changes nothing; with at least one it saves |
| LoopWidget.SaveGuard | public/Chord-ui.js:241-245 | the store changes only if the matrix is not empty, and an empty matrix leaves the whole widget unchanged |
| LoopWidget.SameDayReload | public/Chord-ui.js:241-255 | saving on hide and starting again on the same day restores the saved matrix, marked "Saved for today", with the stopped status |
| LoopWidget.EmptiedLoopReloadsLastSave | public/Chord-ui.js:241-245 | if the last active pad is toggled off after a save, the handler skips the write and a same-day restart brings the saved pads back |
| LoopWidget.TwoPadMatrix | public/Chord-ui.js:99-132 | toggling (0, 0) and (2, 3) on an empty grid gives exactly those two active pads, count 2 |
| LoopWidget.TwoPadFired | public/Chord-ui.js:182-186 | on that grid, step 0 fires only the kick row and step 3 only the hat row |
| LoopWidget.TwoPadStart | public/Chord-ui.js:191-205 | pressing play on that grid fires only the kick row and leaves the widget playing over the same two pads with the status for count 2 |
| LoopWidget.TwoPadLoop | public/Chord-ui.js:179-205 | with pads (0, 0) and (2, 3), play fires row 0 first; the step at cursor 3 fires row 2; after the wrap the step at cursor 0 fires row 0 again; the status reads "Playing · 2 active steps" |
| LoopWidget.TwoActiveSteps | public/Chord-ui.js:137 | the status for a playing widget with two active pads is exactly "Playing · 2 active steps" |

## Left out

- DOM work is left out: element lookup and the early return when an element is missing (lines 12-22), building the pads, CSS classes, `updatePad` and `updatePadsFromMatrix`. The lit step indicator is kept only as a value (`highlight`).
- The day label (`Intl.DateTimeFormat`) and the ISO date from `toISOString` are left out. The day is an opaque `today` string.
- `triggerSound` is left out: oscillator shapes, frequencies, gain ramps and `currentTime` are floating-point calls into Web Audio. A fired tone is only "row r fired". Voice frequencies appear only as table data.
- `setInterval` and `clearInterval` timing and the 500 ms period are left out. The timer is a flag, and its ticks are explicit calls.
- JSON text parsing and serialisation are left out. A stored entry is already classified as blank text, text `JSON.parse` rejects, or a parsed `Json.Value`.
- Json.Truthy: a number is falsy exactly when its decimal mantissa is 0. IEEE-754 rounding is not modelled, so a literal such as `1e-400`, which JavaScript parses to 0 (falsy), counts as truthy here.
- Storage exceptions and `console.error` logging are left out. `setItem` and `removeItem` always succeed in the model.
- Registration of the visibilitychange and beforeunload listeners is left out. `SaveHandler` is the handler they call.
- The play button text is modelled. The page's initial text for the status, loop-state and button elements is not; until the widget writes one, it is `None`.
