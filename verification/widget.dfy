/** The loop widget's state machine: pad toggles, the Stopped/Playing scheduler with
    its step cursor, clear, the status line and the save-on-hide guard. Audio, the
    interval timer and the page's storage are abstract: the browser's audio support is
    a flag handed to `Start`, the timer is a flag plus explicit `TimerTick` calls, the
    tones of a tick are the set of rows that fired, and storage is a key-value map. */
module LoopWidget {
  import opened Wrappers
  import opened Grid
  import opened Decimal
  import opened Persistence

  const PlayingPhrase: string := "Playing"
  const StoppedPhrase: string := "Stopped"
  const Separator: string := " \U{B7} "
  const ActiveSuffix: string := " active steps"
  const UnsupportedText: string := "Audio not supported in this browser."
  const SavedText: string := "Saved for today"
  const UnsavedText: string := "Unsaved live loop"
  const StopLabel: string := "Stop loop"
  const PlayLabel: string := "Play loop"

  /** The status line: "Playing" or "Stopped", a middle dot, then the active count. */
  function StatusText(playing: bool, total: nat): (t: string)
    ensures |t| == 7 + 3 + |ToDecimal(total)| + 13
    ensures t[..7] == if playing then "Playing" else "Stopped"
    ensures t[7..10] == Separator
    ensures t[10..|t| - 13] == ToDecimal(total)
    ensures t[|t| - 13..] == " active steps"
  {
    (if playing then PlayingPhrase else StoppedPhrase) + Separator + ToDecimal(total) + ActiveSuffix
  }

  /** The status line determines both the play state and the count it was built from. */
  lemma StatusTextInjective(p1: bool, c1: nat, p2: bool, c2: nat)
    ensures StatusText(p1, c1) == StatusText(p2, c2) <==> p1 == p2 && c1 == c2
  {
    var t1, t2 := StatusText(p1, c1), StatusText(p2, c2);
    if t1 == t2 {
      assert "Playing"[1] != "Stopped"[1];
      assert t1[..7] == t2[..7];
      assert t1[10..|t1| - 13] == t2[10..|t2| - 13];
      DecimalInjective(c1, c2);
    }
  }

  /** The widget's state. `cursor` is the step the next tick plays; `timerActive` stands
      for a live interval handle; `audioReady` for an acquired audio context. The three
      texts are None until the widget first writes them (the page supplies their initial
      content), and `highlight` is the step indicator that is lit, if any. */
  datatype Widget = Widget(
    matrix: Matrix,
    playing: bool,
    cursor: int,
    timerActive: bool,
    audioReady: bool,
    key: string,
    store: Store,
    status: Option<string>,
    loopState: Option<string>,
    playLabel: Option<string>,
    highlight: Option<int>)

  /** What every reachable widget state satisfies. */
  predicate Valid(w: Widget) {
    && WellFormed(w.matrix)
    && 0 <= w.cursor < Steps
    && (w.playing <==> w.timerActive)
    && (w.playing ==> w.audioReady)
    && (!w.playing ==> w.highlight == None)
  }

  /** The status line that `updateStatus` writes for the current state. */
  function RefreshStatus(w: Widget): (w': Widget)
    ensures w'.status == Some(StatusText(w.playing, Count(w.matrix)))
    ensures w' == w.(status := w'.status)
  {
    w.(status := Some(StatusText(w.playing, Count(w.matrix))))
  }

  /** The state right after the widget's variables are declared, before the saved loop
      is read: empty matrix, stopped, cursor 0, no timer, no audio context. */
  function Fresh(today: string, store: Store): (w: Widget)
    ensures Valid(w) && !w.playing && w.cursor == 0 && w.matrix == Empty()
    ensures !w.timerActive && !w.audioReady && w.highlight == None
    ensures w.key == StorageKey(today) && w.store == store
  {
    Widget(Empty(), false, 0, false, false, StorageKey(today), store, None, None, None, None)
  }

  /** Loading the day's saved loop. When the entry decodes, it replaces the matrix and
      the texts say it was saved; otherwise (absent, blank, unparsable, wrong outer
      shape) nothing changes at all. */
  function LoadSaved(w: Widget): (w': Widget)
    ensures Loads(w.store, w.key) ==>
              && w'.matrix == Load(w.store, w.key, w.matrix)
              && w'.loopState == Some(SavedText)
              && w'.status == Some(StatusText(w.playing, Count(w'.matrix)))
              && w' == w.(matrix := w'.matrix, loopState := w'.loopState, status := w'.status)
    ensures !Loads(w.store, w.key) ==> w' == w
    ensures w'.playing == w.playing && w'.cursor == w.cursor && w'.store == w.store
    ensures Valid(w) ==> Valid(w')
  {
    if Loads(w.store, w.key) then
      RefreshStatus(w.(matrix := Load(w.store, w.key, w.matrix), loopState := Some(SavedText)))
    else
      w
  }

  /** Widget start-up once its page elements are present: declare, load, show status. */
  function Init(today: string, store: Store): (w: Widget)
    ensures Valid(w)
    ensures !w.playing && !w.timerActive && w.cursor == 0 && w.highlight == None
    ensures !w.audioReady && w.playLabel == None
    ensures w.key == StorageKey(today) && w.store == store
    ensures w.loopState == if Loads(store, StorageKey(today)) then Some(SavedText) else None
    ensures w.matrix == Load(store, StorageKey(today), Empty())
    ensures w.status == Some(StatusText(false, Count(w.matrix)))
  {
    RefreshStatus(LoadSaved(Fresh(today, store)))
  }

  /** A saved value whose outer array has the wrong number of rows abandons the load:
      the widget starts with every pad off. */
  lemma InitWrongRowCount(today: string, store: Store)
    requires StorageKey(today) in store && store[StorageKey(today)].Parsed?
    requires store[StorageKey(today)].value.JArray?
    requires |store[StorageKey(today)].value.items| != Rows
    ensures Init(today, store).matrix == Empty()
    ensures Count(Init(today, store).matrix) == 0
    ensures Init(today, store).loopState == None
  {
    CountZeroIffEmpty(Empty());
  }

  /** A click on pad (row, step): exactly that pad flips, the count moves by one,
      the status line follows and the loop is marked unsaved. */
  function Toggle(w: Widget, row: int, step: int): (w': Widget)
    requires WellFormed(w.matrix) && InBounds(row, step)
    ensures WellFormed(w'.matrix)
    ensures w'.matrix[row][step] == !w.matrix[row][step]
    ensures forall i, j :: InBounds(i, j) && (i != row || j != step) ==> w'.matrix[i][j] == w.matrix[i][j]
    ensures Count(w'.matrix) == if w.matrix[row][step] then Count(w.matrix) - 1 else Count(w.matrix) + 1
    ensures w'.status == Some(StatusText(w.playing, Count(w'.matrix)))
    ensures w'.loopState == Some(UnsavedText)
    ensures w' == w.(matrix := w'.matrix, status := w'.status, loopState := w'.loopState)
    ensures Valid(w) ==> Valid(w')
  {
    CountFlip(w.matrix, row, step);
    RefreshStatus(w.(matrix := Flip(w.matrix, row, step))).(loopState := Some(UnsavedText))
  }

  /** Clicking the same pad twice restores the matrix; only the texts remember it. */
  lemma ToggleTwice(w: Widget, row: int, step: int)
    requires WellFormed(w.matrix) && InBounds(row, step)
    ensures Toggle(Toggle(w, row, step), row, step).matrix == w.matrix
    ensures Toggle(Toggle(w, row, step), row, step)
            == w.(status := Some(StatusText(w.playing, Count(w.matrix))), loopState := Some(UnsavedText))
  {
    FlipInvolutive(w.matrix, row, step);
  }

  /** The rows whose pad is on at step c. */
  function FiredRows(m: Matrix, c: int): (fired: set<int>)
    requires WellFormed(m) && 0 <= c < Steps
    ensures forall r :: r in fired <==> 0 <= r < Rows && m[r][c]
  {
    set r | 0 <= r < Rows && m[r][c]
  }

  /** One playback step: light the indicator of the current step, fire a tone for
      every row whose pad is on at that step (none without an audio context), and
      advance the cursor by one, wrapping after the last step. */
  function Step(w: Widget): (res: (Widget, set<int>))
    requires WellFormed(w.matrix) && 0 <= w.cursor < Steps
    ensures 0 <= res.0.cursor < Steps
    ensures res.0.cursor == (w.cursor + 1) % Steps
    ensures res.0.highlight == Some(w.cursor)
    ensures forall r :: r in res.1 <==> w.audioReady && 0 <= r < Rows && w.matrix[r][w.cursor]
    ensures res.0 == w.(cursor := res.0.cursor, highlight := res.0.highlight)
  {
    (w.(highlight := Some(w.cursor), cursor := (w.cursor + 1) % Steps),
     if w.audioReady then FiredRows(w.matrix, w.cursor) else {})
  }

  /** The interval timer's callback: a step while the timer is live, nothing otherwise. */
  function TimerTick(w: Widget): (res: (Widget, set<int>))
    requires Valid(w)
    ensures Valid(res.0)
    ensures !w.timerActive ==> res == (w, {})
    ensures w.timerActive ==> res == Step(w)
  {
    if w.timerActive then Step(w) else (w, {})
  }

  /** The widget after n timer ticks. */
  function Run(w: Widget, n: nat): (w': Widget)
    requires Valid(w)
    ensures Valid(w')
    decreases n
  {
    if n == 0 then w else Run(TimerTick(w).0, n - 1)
  }

  /** While playing, every tick moves the cursor one step on modulo Steps and nothing
      but the cursor and the indicator changes. */
  lemma {:induction false} RunCursor(w: Widget, n: nat)
    requires Valid(w) && w.playing
    ensures Run(w, n).cursor == (w.cursor + n) % Steps
    ensures Run(w, n) == w.(cursor := Run(w, n).cursor, highlight := Run(w, n).highlight)
    decreases n
  {
    if n > 0 {
      var w1 := TimerTick(w).0;
      RunCursor(w1, n - 1);
      assert (((w.cursor + 1) % Steps) + (n - 1)) % Steps == (w.cursor + n) % Steps;
    }
  }

  /** After 8·k ticks from any cursor position the cursor is back where it was. */
  lemma RunFullCycles(w: Widget, k: nat)
    requires Valid(w) && w.playing
    ensures Run(w, Steps * k).cursor == w.cursor
  {
    RunCursor(w, Steps * k);
    assert (w.cursor + Steps * k) % Steps == w.cursor;
  }

  /** While stopped there is no timer, so ticks change nothing. */
  lemma {:induction false} RunWhileStopped(w: Widget, n: nat)
    requires Valid(w) && !w.playing
    ensures Run(w, n) == w
    decreases n
  {
    if n > 0 {
      RunWhileStopped(w, n - 1);
    }
  }

  /** The play control's start: no-op while playing. Otherwise the audio context is
      acquired if the browser supports it and it was not acquired before; without one
      the status reports it and the widget stays stopped with no timer. With one the
      cursor is reset, one step runs at once and the timer is started. */
  function Start(w: Widget, supported: bool): (res: (Widget, set<int>))
    requires Valid(w)
    ensures Valid(res.0)
    ensures w.playing ==> res == (w, {})
    ensures !w.playing && !w.audioReady && !supported ==>
              res == (w.(status := Some(UnsupportedText)), {})
    ensures !w.playing && (w.audioReady || supported) ==>
              && (forall r :: r in res.1 <==> 0 <= r < Rows && w.matrix[r][0])
              && res.0 == w.(playing := true, timerActive := true, audioReady := true, cursor := 1,
                             highlight := Some(0), playLabel := Some(StopLabel),
                             status := Some(StatusText(true, Count(w.matrix))))
  {
    if w.playing then (w, {})
    else
      var ready := w.audioReady || supported;
      if !ready then (w.(status := Some(UnsupportedText)), {})
      else
        var (w1, fired) := Step(w.(audioReady := true, playing := true, cursor := 0));
        (RefreshStatus(w1.(timerActive := true, playLabel := Some(StopLabel))), fired)
  }

  /** The play control's stop: no-op while stopped; otherwise the timer is cancelled,
      no step is lit, the label and status read stopped. The cursor stays where it is. */
  function Stop(w: Widget): (w': Widget)
    ensures !w.playing ==> w' == w
    ensures w.playing ==> w'.status == Some(StatusText(false, Count(w.matrix)))
    ensures w'.matrix == w.matrix && w'.cursor == w.cursor && w'.store == w.store
    ensures w'.audioReady == w.audioReady && w'.loopState == w.loopState && w'.key == w.key
    ensures w.playing ==>
              w' == w.(playing := false, timerActive := false, highlight := None,
                       playLabel := Some(PlayLabel), status := w'.status)
    ensures Valid(w) ==> Valid(w')
  {
    if !w.playing then w
    else RefreshStatus(w.(playing := false, timerActive := false, highlight := None, playLabel := Some(PlayLabel)))
  }

  /** The play button: stop while playing, start otherwise. */
  function PlayButton(w: Widget, supported: bool): (res: (Widget, set<int>))
    requires Valid(w)
    ensures Valid(res.0)
    ensures res.0.playing <==> !w.playing && (w.audioReady || supported)
    ensures w.playing ==> res == (Stop(w), {})
    ensures !w.playing ==> res == Start(w, supported)
  {
    if w.playing then (Stop(w), {}) else Start(w, supported)
  }

  /** Pressing play then stop with audio available leaves the widget stopped with no
      timer, no lit step and the same pads, one step further along. */
  lemma PlayThenStop(w: Widget, supported: bool)
    requires Valid(w) && !w.playing && (w.audioReady || supported)
    ensures var w2 := PlayButton(PlayButton(w, supported).0, supported).0;
            && !w2.playing && !w2.timerActive && w2.highlight == None
            && w2.matrix == w.matrix && w2.store == w.store && w2.cursor == 1
            && w2.status == Some(StatusText(false, Count(w.matrix)))
  {
  }

  /** The clear button: stop first whatever the state (so a reachable widget ends with
      no timer and no lit step), empty every pad, refresh the status, mark the loop
      unsaved and delete the day's saved entry. */
  function Clear(w: Widget): (w': Widget)
    ensures !w'.playing
    ensures Valid(w) ==> !w'.timerActive && w'.highlight == None
    ensures w.playing ==> w'.highlight == None && w'.playLabel == Some(PlayLabel)
    ensures w'.matrix == Empty() && Count(w'.matrix) == 0
    ensures w'.status == Some(StatusText(false, 0))
    ensures w'.store == w.store - {w.key}
    ensures w' == Stop(w).(matrix := Empty(), status := Some(StatusText(false, 0)),
                           loopState := Some(UnsavedText), store := w.store - {w.key})
    ensures Valid(w) ==> Valid(w')
  {
    var w1 := Stop(w);
    CountZeroIffEmpty(Empty());
    RefreshStatus(w1.(matrix := Empty())).(loopState := Some(UnsavedText), store := w1.store - {w1.key})
  }

  /** Clearing twice is the same as clearing once. */
  lemma ClearIdempotent(w: Widget)
    ensures Clear(Clear(w)) == Clear(w)
  {
  }

  /** `saveMatrix`: write the encoded matrix under the day's key. */
  function SaveMatrix(w: Widget): (w': Widget)
    ensures w'.store.Keys == w.store.Keys + {w.key}
    ensures w'.store[w.key] == Parsed(Encode(w.matrix))
    ensures forall k :: k in w.store && k != w.key ==> w'.store[k] == w.store[k]
    ensures w'.loopState == Some(SavedText)
    ensures w' == w.(store := w'.store, loopState := w'.loopState)
  {
    w.(store := w.store[w.key := Parsed(Encode(w.matrix))], loopState := Some(SavedText))
  }

  /** The page-hide / unload handler: save only when at least one pad is on. */
  function SaveHandler(w: Widget): (w': Widget)
    ensures Count(w.matrix) == 0 ==> w' == w
    ensures Count(w.matrix) > 0 ==> w' == SaveMatrix(w)
    ensures Valid(w) ==> Valid(w')
  {
    if Count(w.matrix) > 0 then SaveMatrix(w) else w
  }

  /** An empty matrix is never written: the store after the handler differs from the
      store before only when some pad is on. */
  lemma SaveGuard(w: Widget)
    requires WellFormed(w.matrix)
    ensures SaveHandler(w).store != w.store ==> w.matrix != Empty()
    ensures w.matrix == Empty() ==> SaveHandler(w) == w
  {
    CountZeroIffEmpty(w.matrix);
  }

  /** Saving on page hide and opening the widget again the same day restores exactly
      the matrix that was saved, and the loop reads as saved. */
  lemma SameDayReload(w: Widget, today: string)
    requires Valid(w) && w.key == StorageKey(today) && Count(w.matrix) > 0
    ensures Init(today, SaveHandler(w).store).matrix == w.matrix
    ensures Init(today, SaveHandler(w).store).loopState == Some(SavedText)
    ensures Init(today, SaveHandler(w).store).status == Some(StatusText(false, Count(w.matrix)))
  {
    SaveLoadRoundTrip(w.store, w.key, w.matrix, Empty());
  }

  /** The guard's consequence for a loop emptied pad by pad rather than by clear: the
      last save stays in the store, and opening the widget again that day brings the
      saved pads back. */
  lemma EmptiedLoopReloadsLastSave(w: Widget, today: string, row: int, step: int)
    requires Valid(w) && w.key == StorageKey(today) && InBounds(row, step)
    requires Count(w.matrix) == 1 && w.matrix[row][step]
    ensures Count(Toggle(SaveHandler(w), row, step).matrix) == 0
    ensures SaveHandler(Toggle(SaveHandler(w), row, step)).store == SaveHandler(w).store
    ensures Init(today, SaveHandler(Toggle(SaveHandler(w), row, step)).store).matrix == w.matrix
  {
    SameDayReload(w, today);
  }

  /** The first press of play in a browser without audio support leaves the freshly
      started widget stopped, with no timer, and only reports that audio is missing. */
  lemma FirstPlayWithoutAudio(today: string, store: Store)
    ensures Start(Init(today, store), false).0 == Init(today, store).(status := Some(UnsupportedText))
    ensures Start(Init(today, store), false).1 == {}
    ensures !Start(Init(today, store), false).0.playing && !Start(Init(today, store), false).0.timerActive
  {
  }

  /** The pads of the worked loop below: (0, 0) and (2, 3) on, nothing else. */
  lemma TwoPadMatrix(m: Matrix)
    requires m == Flip(Flip(Empty(), 0, 0), 2, 3)
    ensures WellFormed(m) && Count(m) == 2
    ensures forall r, s :: InBounds(r, s) ==> (m[r][s] <==> (r == 0 && s == 0) || (r == 2 && s == 3))
  {
    var e := Empty();
    CountZeroIffEmpty(e);
    CountFlip(e, 0, 0);
    CountFlip(Flip(e, 0, 0), 2, 3);
  }

  /** The fired rows of a step over the worked loop's matrix. */
  lemma TwoPadFired(w: Widget, c: int)
    requires Valid(w) && w.playing && w.cursor == c
    requires forall r, s :: InBounds(r, s) ==> (w.matrix[r][s] <==> (r == 0 && s == 0) || (r == 2 && s == 3))
    ensures c == 0 ==> TimerTick(w).1 == {0}
    ensures c == 3 ==> TimerTick(w).1 == {2}
  {
  }

  /** Pressing play on the worked loop: the kick row fires, playback runs with the
      same pads and the status counts two active steps. */
  lemma TwoPadStart(w: Widget)
    requires Valid(w) && !w.playing
    requires w.matrix == Flip(Flip(Empty(), 0, 0), 2, 3)
    ensures Start(w, true).1 == {0}
    ensures Valid(Start(w, true).0) && Start(w, true).0.playing
    ensures Start(w, true).0.matrix == w.matrix
    ensures forall r, s :: InBounds(r, s) ==>
              (Start(w, true).0.matrix[r][s] <==> (r == 0 && s == 0) || (r == 2 && s == 3))
    ensures Start(w, true).0.status == Some(StatusText(true, 2))
  {
    TwoPadMatrix(w.matrix);
    var f0 := Start(w, true).1;
    assert forall r :: r in f0 <==> r == 0;
  }

  /** A worked loop: pads (0, 0) and (2, 3) on, play pressed with audio available. The
      first step fires the kick row, the fourth the hat row, and the ninth (the cursor
      having wrapped) the kick row again; the status reads "Playing · 2 active steps". */
  lemma TwoPadLoop(w: Widget)
    requires Valid(w) && !w.playing
    requires w.matrix == Flip(Flip(Empty(), 0, 0), 2, 3)
    ensures Start(w, true).1 == {0}
    ensures TimerTick(Run(Start(w, true).0, 2)).1 == {2}
    ensures TimerTick(Run(Start(w, true).0, 7)).1 == {0}
    ensures Run(Start(w, true).0, 7).status == Some("Playing \U{B7} 2 active steps")
  {
    var w1 := Start(w, true).0;
    TwoPadStart(w);
    RunCursor(w1, 2);
    RunCursor(w1, 7);
    TwoPadFired(Run(w1, 2), 3);
    TwoPadFired(Run(w1, 7), 0);
    TwoActiveSteps();
  }

  /** The status line of the worked loop, spelled out. */
  lemma TwoActiveSteps()
    ensures StatusText(true, 2) == "Playing \U{B7} 2 active steps"
  {
  }
}
