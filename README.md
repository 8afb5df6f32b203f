# Find The Mouse — game state machine in Dafny

Find The Mouse is a single-screen Android game. Five cards are shown and a
mouse hides under one of them. The player has three guesses. A wrong card is
hidden. Finding the mouse wins: the streak grows by one and the score grows by
the guesses that were left before the click. After a win a new game starts
after a delay. After a game is over, the menu or search key resets the score
and streak and starts a new game.

This project models the game logic of `MainActivity`:
- the card click listener;
- `startGame`, `resetGame`, `doReset` and the delayed restart posted by `delayRefresh`;
- the menu/search branch of `onKeyDown`;
- the dialog choice made by `showMessage`.

It has two modules:

- `MouseGame` (MouseGame.dfy) holds the activity's fields as a value,
  `GameState`. Each event handler is a function from the old state to the
  new one. `Inv` is the invariant that holds between events. The lemmas state
  what each transition does and prove that every event, and so every run of
  events from launch, keeps `Inv`.
- `FindTheMouse` (FindTheMouse.dfy) holds the class `MainActivity`. Its fields
  mirror the Java ones, and card visibility is an `array<bool>` of length 5.
  Its methods update the fields in place, in the order the Java code does.
  Each method is proved to leave `Model()` equal to the matching `MouseGame`
  function of the old state. `LostGame` and `WonGame` drive the object through
  whole games.

Inputs from outside the game are parameters:
- the random card drawn by `new Random().nextInt(5)` is a parameter `draw` in 0..4;
- a click names a card index 0..4 (the ids set in `onCreate`), and a click
  reaches the listener only while that card is shown;
- the restart that `delayRefresh` posts to a `Handler` is counted in
  `pendingResets`, and `FirePendingReset` is that posted restart running.

The model keeps the code's quirks:
- A click after a win is not ignored: it spends a guess
  (MainActivity.java:64-83).
- Clicking the mouse's card again in that delay wins again. It adds to the
  streak and score a second time and posts a second restart.
- A click after the game is over shows the last dialog again.

Two more facts about the code shape the model:
- Wrong cards are hidden with `setVisibility(INVISIBLE)`, so the model keeps
  one visibility flag per card (MainActivity.java:85).
- `doReset` calls `onDestroy` and `onCreate` directly and never cancels the
  posted runnable, so `pendingResets` survives a session reset
  (MainActivity.java:107-114, 145-148).

## Model

| member | source | states |
|---|---|---|
| `MouseGame.Initial` | src/com/dylantaylor/findthemouse/MainActivity.java:37-45 | the field initialisers give score, streak and posted restarts 0, and no valid game yet: no card holds the mouse until `startGame` draws one |
| `MouseGame.ShowMessage` | src/com/dylantaylor/findthemouse/MainActivity.java:164-171 | the win dialog exactly when the game was won; under the invariant a lose dialog names the mouse's card as 1..5, and that card is still shown |
| `MouseGame.DoReset` | src/com/dylantaylor/findthemouse/MainActivity.java:145-148 | the rebuilt activity starts a new game with the drawn card and 3 guesses, keeping score, streak and posted restarts; with consistent score and streak the result satisfies the invariant |
| `MouseGame.ResetGame` | src/com/dylantaylor/findthemouse/MainActivity.java:135-143 | a session reset gives a valid new game with score and streak 0; otherwise exactly one restart is posted and nothing else changes |
| `MouseGame.FirePendingReset` | src/com/dylantaylor/findthemouse/MainActivity.java:109-112 | the posted runnable consumes one posting and starts a new game with the drawn card, keeping score and streak; it gives a valid state from consistent score and streak |
| `MouseGame.Step` | src/com/dylantaylor/findthemouse/MainActivity.java:63-162 | one delivered event: a tap on a hidden card or no card, a timer with no posted restart, and any key while the game runs all leave the state unchanged |
| `MouseGame.Run` | src/com/dylantaylor/findthemouse/MainActivity.java:63-162 | the events handled one at a time in order; `RunAppend` states that running two sequences is running one after the other |
| `MouseGame.RunAppend` | src/com/dylantaylor/findthemouse/MainActivity.java:63-162 | handling events `a` and then `b` equals handling `a + b`, so properties of runs compose (used by `LostRunStaysLost`) |
| `MouseGame.StartGame` | src/com/dylantaylor/findthemouse/MainActivity.java:116-128 | a new game is not over, has 3 guesses, has the mouse under the drawn card 0..4, shows all five cards and satisfies the per-game invariant; score, streak and posted restarts carry over |
| `MouseGame.Launch` | src/com/dylantaylor/findthemouse/MainActivity.java:37-98 | a freshly created activity satisfies the full invariant with score, streak and posted restarts all 0 |
| `MouseGame.OnClick` | src/com/dylantaylor/findthemouse/MainActivity.java:63-91 | a click never moves the mouse and can change only the clicked card's visibility; score and streak change only when the game ends up over |
| `MouseGame.OnKeyDown` | src/com/dylantaylor/findthemouse/MainActivity.java:151-162 | a key either changes nothing or leaves a running game with score and streak 0 |
| `MouseGame.HideOne` | src/com/dylantaylor/findthemouse/MainActivity.java:85 | hiding a shown card adds exactly one hidden card |
| `MouseGame.ClickPreservesInv` | src/com/dylantaylor/findthemouse/MainActivity.java:63-91 | every click on a shown card keeps the invariant: guesses in 0..3, won implies over, no guesses implies over, the mouse's card shown, hidden cards plus guesses left equal 3 until a win |
| `MouseGame.ClickWithNoGuessesLeft` | src/com/dylantaylor/findthemouse/MainActivity.java:64-70 | with no guesses left a click only sets `gameOver`, and shows the dialog again if the game was over; under the invariant the state is unchanged |
| `MouseGame.ClickSpendsOneGuess` | src/com/dylantaylor/findthemouse/MainActivity.java:67-71 | any other click lowers the guesses left by exactly one, leaving them in 0..2 |
| `MouseGame.ClickOnMouse` | src/com/dylantaylor/findthemouse/MainActivity.java:75-82 | finding the mouse sets won and over, adds one to the streak and the guesses left before the click (1..3) to the score, hides nothing, posts a restart and ends with the win dialog |
| `MouseGame.ClickMiss` | src/com/dylantaylor/findthemouse/MainActivity.java:83-89 | a wrong card in a running game spends one guess and hides exactly that card; nothing else changes (score, streak, mouse, posted restarts) except that the game is over exactly when that was the last guess, and then the lose dialog names the mouse's card |
| `MouseGame.ClickAfterWin` | src/com/dylantaylor/findthemouse/MainActivity.java:64-90 | after a win, a click on another card only spends a guess and shows the win dialog again |
| `MouseGame.WinAgainDuringDelay` | src/com/dylantaylor/findthemouse/MainActivity.java:64-82 | after a win, clicking the mouse's card with guesses left awards streak and score again and posts another restart, showing the win dialog twice |
| `MouseGame.ClickAfterLoss` | src/com/dylantaylor/findthemouse/MainActivity.java:64-70 | after a loss a click changes nothing and shows the lose dialog again |
| `MouseGame.LostGameShowsMouse` | src/com/dylantaylor/findthemouse/MainActivity.java:164-171 | a lost game has exactly three cards hidden, the mouse's card shown, and its dialog names that card as 1..5 |
| `MouseGame.KeyResetsOnlyWhenOver` | src/com/dylantaylor/findthemouse/MainActivity.java:152-155 | menu and search reset the session when the game is over and change nothing otherwise; other keys change nothing |
| `MouseGame.StepPreservesInv` | src/com/dylantaylor/findthemouse/MainActivity.java:63-155 | each delivered event (click, posted restart, key) keeps the invariant |
| `MouseGame.RunPreservesInv` | src/com/dylantaylor/findthemouse/MainActivity.java:37-45 | the invariant on the game fields holds after any sequence of events |
| `MouseGame.EveryReachableStateValid` | src/com/dylantaylor/findthemouse/MainActivity.java:50-98 | every state reachable from a launched activity satisfies the invariant |
| `MouseGame.ClicksKeepTheGame` | src/com/dylantaylor/findthemouse/MainActivity.java:122 | while only cards are clicked the mouse stays put, score and streak never fall, guesses never come back and hidden cards stay hidden |
| `MouseGame.LossWaitsForKey` | src/com/dylantaylor/findthemouse/MainActivity.java:64-70 | a lost game posts no restart, so with nothing posted every tap and timer leaves it exactly as it is; only menu/search (:152-155) starts a new game |
| `MouseGame.LostRunStaysLost` | src/com/dylantaylor/findthemouse/MainActivity.java:83-89 | once a run of events has lost a game with no restart posted, appending any taps and timers leaves the final state unchanged |
| `MouseGame.LoseScenario` | src/com/dylantaylor/findthemouse/MainActivity.java:83-89 | mouse under card 2, guesses 0, 1, 3: the game is lost with 0 guesses and the dialog names card 3 |
| `MouseGame.WinScenario` | src/com/dylantaylor/findthemouse/MainActivity.java:75-81 | mouse under card 4, guessed at once: won with 2 guesses left, 3 points and the win dialog |
| `FindTheMouse.MainActivity.constructor` | src/com/dylantaylor/findthemouse/MainActivity.java:37-98 | a new activity is valid and equals `Launch(draw)` |
| `FindTheMouse.MainActivity.StartGame` | src/com/dylantaylor/findthemouse/MainActivity.java:116-128 | the fields, with every card made visible by the loop, equal `StartGame` of the old fields |
| `FindTheMouse.MainActivity.ShowMessage` | src/com/dylantaylor/findthemouse/MainActivity.java:164-171 | returns the dialog `MouseGame.ShowMessage` picks for the current fields |
| `FindTheMouse.MainActivity.DoReset` | src/com/dylantaylor/findthemouse/MainActivity.java:145-148 | the fields equal `DoReset` of the old fields: a new game with score and streak kept |
| `FindTheMouse.MainActivity.ResetGame` | src/com/dylantaylor/findthemouse/MainActivity.java:135-143 | the fields equal `ResetGame` of the old fields |
| `FindTheMouse.MainActivity.FirePendingReset` | src/com/dylantaylor/findthemouse/MainActivity.java:107-114 | keeps the object valid and the fields equal `FirePendingReset` of the old fields |
| `FindTheMouse.MainActivity.OnClick` | src/com/dylantaylor/findthemouse/MainActivity.java:63-91 | keeps the object valid; the new fields and the dialogs shown equal `OnClick` of the old fields |
| `FindTheMouse.MainActivity.OnKeyDown` | src/com/dylantaylor/findthemouse/MainActivity.java:151-162 | keeps the object valid, reports the key as handled, and the fields equal `OnKeyDown` of the old fields |

## Left out

- View updates: `updateStatistics` writes the guess, score and streak counters to text views; these are not modelled. As a result the model does not capture that the counters are not refreshed on a win or on a click with no guesses left.
- Card images set with `setBackgroundDrawable`, including the mouse picture shown on a win, are rendering only.
- Dialog construction and text are not modelled. A dialog is the value `WinDialog` or `LoseDialog(mouseCard + 1)`.
- Timing: the 1000 ms delay is not modelled. A posted restart may fire after any number of later events, and each firing is a separate `FirePendingReset`.
- The random draw is a parameter in 0..4, not a uniform distribution.
- Listener registration, `setId`, `onDestroy`, the back key's `finish()`, `onSearchRequested` and `super.onKeyDown` have no effect on the game fields. The back key and other keys are modelled as leaving the state unchanged.
- `Log.i` calls have no observable effect.
- Score and streak are unbounded integers. Java's 32-bit `int` would wrap only after more than two billion points.
- Clicks on hidden cards are excluded by `MainActivity.OnClick`'s precondition, because the platform delivers no click to an invisible view. In a run of events (`MouseGame.Step`) such a tap does nothing.
