/**
 * The game state machine of Find The Mouse, on values.
 *
 * A `GameState` holds the fields `MainActivity` keeps between events; each
 * event handler of the activity is a function from the old state to the new
 * one. The class in FindTheMouse.dfy updates the same fields in place and is
 * proved to agree with these functions.
 */
module MouseGame {

  /** Number of guesses allowed per game (`gameClicks`). */
  const GameClicks: int := 3

  /** Number of cards on the screen. */
  const CardCount: int := 5

  /** Every card shown, as `startGame` leaves them. */
  const AllVisible: seq<bool> := [true, true, true, true, true]

  /** The dialog `showMessage` puts up; a lose dialog names the mouse's card, counted from 1. */
  datatype Dialog = WinDialog | LoseDialog(cardNumber: int)

  /** The keys `onKeyDown` tells apart. */
  datatype Key = MenuKey | SearchKey | BackKey | OtherKey

  /**
   * The activity's game fields. `visible[k]` is whether card k is shown;
   * `pendingResets` counts the delayed restarts posted after wins that have
   * not fired yet.
   */
  datatype GameState = GameState(
    gameOver: bool,
    gameWon: bool,
    mouseCard: int,
    clicksLeft: int,
    currentStreak: int,
    currentScore: int,
    visible: seq<bool>,
    pendingResets: nat)

  /** What a card click leaves behind: the new state and the dialogs shown, in order. */
  datatype ClickOutcome = ClickOutcome(state: GameState, dialogs: seq<Dialog>)

  /** The events the activity reacts to; a draw stands for `new Random().nextInt(5)`. */
  datatype Event =
    | Click(card: int)
    | TimerFired(draw: int)
    | KeyPress(key: Key, draw: int)

  /** Number of hidden cards. */
  function HiddenCount(v: seq<bool>): (n: nat)
    ensures n <= |v|
  {
    if v == [] then 0 else (if v[0] then 0 else 1) + HiddenCount(v[1..])
  }

  /** Score and streak across games: every win adds one to the streak and 1 to 3 points. */
  predicate SessionInv(g: GameState)
  {
    0 <= g.currentStreak <= g.currentScore <= GameClicks * g.currentStreak
  }

  /**
   * What holds of one game between events: the guesses left stay in range,
   * a won game is over, a game is over once the guesses are spent, the mouse's
   * card is never hidden, and every guess not spent on a win hid a card.
   */
  predicate RoundInv(g: GameState)
  {
    && |g.visible| == CardCount
    && 0 <= g.mouseCard < CardCount
    && 0 <= g.clicksLeft <= GameClicks
    && (g.gameWon ==> g.gameOver)
    && (g.clicksLeft == 0 ==> g.gameOver)
    && (g.gameOver && !g.gameWon ==> g.clicksLeft == 0)
    && g.visible[g.mouseCard]
    && HiddenCount(g.visible) + g.clicksLeft <= GameClicks
    && (!g.gameWon ==> HiddenCount(g.visible) + g.clicksLeft == GameClicks)
  }

  predicate Inv(g: GameState)
  {
    SessionInv(g) && RoundInv(g)
  }

  /** The field initialisers of a new activity, before `startGame` runs. */
  function Initial(): (r: GameState)
    ensures r.currentScore == 0 && r.currentStreak == 0 && r.pendingResets == 0
    ensures !RoundInv(r)  // no card holds the mouse until startGame draws one
  {
    GameState(false, false, -1, GameClicks, 0, 0, AllVisible, 0)
  }

  /** `showMessage`: the win dialog if the game was won, otherwise the lose dialog naming the mouse's card. */
  function ShowMessage(g: GameState): (d: Dialog)
    ensures d.WinDialog? <==> g.gameWon
    ensures Inv(g) && d.LoseDialog? ==>
      1 <= d.cardNumber <= CardCount && g.visible[d.cardNumber - 1] && d.cardNumber - 1 == g.mouseCard
  {
    if g.gameWon then WinDialog else LoseDialog(g.mouseCard + 1)
  }

  /** `startGame`: a new game with the mouse under card `draw`; score, streak and posted resets carry over. */
  function StartGame(g: GameState, draw: int): (r: GameState)
    requires 0 <= draw < CardCount
    ensures RoundInv(r) && !r.gameOver && r.clicksLeft == GameClicks && r.mouseCard == draw
    ensures forall k :: 0 <= k < CardCount ==> r.visible[k]
    ensures r.currentScore == g.currentScore && r.currentStreak == g.currentStreak
    ensures r.pendingResets == g.pendingResets
  {
    g.(gameOver := false, gameWon := false, clicksLeft := GameClicks,
       mouseCard := draw, visible := AllVisible)
  }

  /** `onCreate` of a new activity: the field initialisers, then `startGame`. */
  function Launch(draw: int): (r: GameState)
    requires 0 <= draw < CardCount
    ensures Inv(r) && r.currentScore == 0 && r.currentStreak == 0 && r.pendingResets == 0
  {
    StartGame(Initial(), draw)
  }

  /** `doReset`: the activity is rebuilt, which starts a new game and keeps score and streak. */
  function DoReset(g: GameState, draw: int): (r: GameState)
    requires 0 <= draw < CardCount
    ensures SessionInv(g) ==> Inv(r)
    ensures !r.gameOver && r.clicksLeft == GameClicks && r.mouseCard == draw
    ensures r.currentScore == g.currentScore && r.currentStreak == g.currentStreak
    ensures r.pendingResets == g.pendingResets
  {
    StartGame(g, draw)
  }

  /**
   * `resetGame`: a session reset zeroes score and streak and restarts at once;
   * otherwise a restart is posted to run after the delay.
   */
  function ResetGame(g: GameState, resetSession: bool, draw: int): (r: GameState)
    requires resetSession ==> 0 <= draw < CardCount
    ensures resetSession ==>
      Inv(r) && r.currentScore == 0 && r.currentStreak == 0 && r.mouseCard == draw
      && r.clicksLeft == GameClicks && !r.gameOver && r.pendingResets == g.pendingResets
    ensures !resetSession ==> r.pendingResets == g.pendingResets + 1 && r.(pendingResets := g.pendingResets) == g
  {
    if resetSession then DoReset(g.(currentScore := 0, currentStreak := 0), draw)
    else g.(pendingResets := g.pendingResets + 1)
  }

  /** One posted delayed restart runs `doReset`. */
  function FirePendingReset(g: GameState, draw: int): (r: GameState)
    requires g.pendingResets > 0 && 0 <= draw < CardCount
    ensures r.pendingResets == g.pendingResets - 1
    ensures SessionInv(g) ==> Inv(r)
    ensures r.currentScore == g.currentScore && r.currentStreak == g.currentStreak
    ensures !r.gameOver && r.clicksLeft == GameClicks && r.mouseCard == draw
  {
    DoReset(g.(pendingResets := g.pendingResets - 1), draw)
  }

  /**
   * The card click listener. A click shows the result again if the game is
   * over; with no guesses left it only marks the game over. Otherwise it
   * spends a guess: the mouse's card wins (even after a win), any other card
   * is hidden only while the game is still running, and the last guess spent
   * on a wrong card loses.
   */
  function OnClick(g: GameState, card: int): (r: ClickOutcome)
    requires 0 <= card < |g.visible| && g.visible[card]
    ensures r.state.mouseCard == g.mouseCard
    ensures |r.state.visible| == |g.visible|
    ensures forall k :: 0 <= k < |g.visible| && k != card ==> r.state.visible[k] == g.visible[k]
    ensures r.state.gameOver
      || (r.state.currentScore == g.currentScore && r.state.currentStreak == g.currentStreak)
  {
    var shown := if g.gameOver then [ShowMessage(g)] else [];
    if g.clicksLeft == 0 then
      ClickOutcome(g.(gameOver := true), shown)
    else
      var g1 := g.(clicksLeft := g.clicksLeft - 1);
      if card == g1.mouseCard then
        var g2 := g1.(gameOver := true, gameWon := true,
                      currentStreak := g1.currentStreak + 1,
                      currentScore := g1.currentScore + (g1.clicksLeft + 1));
        ClickOutcome(ResetGame(g2, false, 0), shown + [ShowMessage(g2)])
      else if !g1.gameOver then
        var g2 := g1.(visible := g1.visible[card := false]);
        if g2.clicksLeft == 0 then
          var g3 := g2.(gameOver := true);
          ClickOutcome(g3, shown + [ShowMessage(g3)])
        else
          ClickOutcome(g2, shown)
      else
        ClickOutcome(g1, shown)
  }

  /**
   * `onKeyDown`: menu and search reset the session, but only once the game
   * is over; back finishes the activity and other keys go to the platform,
   * neither of which touches the game.
   */
  function OnKeyDown(g: GameState, key: Key, draw: int): (r: GameState)
    requires 0 <= draw < CardCount
    ensures r == g || (r.currentScore == 0 && r.currentStreak == 0 && !r.gameOver)
  {
    match key
    case MenuKey | SearchKey => if g.gameOver then ResetGame(g, true, draw) else g
    case BackKey | OtherKey => g
  }

  /** Every draw an event carries is a card index. */
  predicate DrawOk(e: Event)
  {
    match e
    case Click(_) => true
    case TimerFired(draw) => 0 <= draw < CardCount
    case KeyPress(_, draw) => 0 <= draw < CardCount
  }

  /**
   * One event as the platform delivers it: a tap on a hidden card (or no card)
   * reaches no listener, and a timer fires only if a restart was posted.
   */
  function Step(g: GameState, e: Event): (r: GameState)
    requires DrawOk(e)
    ensures e.Click? && !(0 <= e.card < |g.visible| && g.visible[e.card]) ==> r == g
    ensures e.TimerFired? && g.pendingResets == 0 ==> r == g
    ensures e.KeyPress? && !g.gameOver ==> r == g
  {
    match e
    case Click(card) =>
      if 0 <= card < |g.visible| && g.visible[card] then OnClick(g, card).state else g
    case TimerFired(draw) =>
      if g.pendingResets > 0 then FirePendingReset(g, draw) else g
    case KeyPress(key, draw) => OnKeyDown(g, key, draw)
  }

  /** A sequence of events, handled one at a time. */
  function Run(g: GameState, evs: seq<Event>): (r: GameState)
    requires forall k :: 0 <= k < |evs| ==> DrawOk(evs[k])
    decreases |evs|
  {
    if evs == [] then g else Run(Step(g, evs[0]), evs[1..])
  }

  /** Handling one sequence of events and then another is handling them all in order. */
  lemma {:induction false} RunAppend(g: GameState, a: seq<Event>, b: seq<Event>)
    requires forall k :: 0 <= k < |a| ==> DrawOk(a[k])
    requires forall k :: 0 <= k < |b| ==> DrawOk(b[k])
    ensures forall k :: 0 <= k < |a + b| ==> DrawOk((a + b)[k])
    ensures Run(g, a + b) == Run(Run(g, a), b)
    decreases |a|
  {
    assert forall k :: 0 <= k < |a + b| ==> DrawOk((a + b)[k]) by {
      forall k | 0 <= k < |a + b| ensures DrawOk((a + b)[k]) {
        if k < |a| { assert (a + b)[k] == a[k]; } else { assert (a + b)[k] == b[k - |a|]; }
      }
    }
    if a != [] {
      assert (a + b)[1..] == a[1..] + b;
      RunAppend(Step(g, a[0]), a[1..], b);
    } else {
      assert a + b == b;
    }
  }

  // ---------------------------------------------------------------------
  // Hidden cards

  /** Hiding a shown card adds exactly one hidden card. */
  lemma {:induction false} HideOne(v: seq<bool>, i: int)
    requires 0 <= i < |v| && v[i]
    ensures HiddenCount(v[i := false]) == HiddenCount(v) + 1
  {
    if i == 0 {
      assert v[i := false][1..] == v[1..];
    } else {
      assert v[i := false][1..] == v[1..][i - 1 := false];
      HideOne(v[1..], i - 1);
    }
  }

  // ---------------------------------------------------------------------
  // The click listener

  /** A click keeps the invariant. */
  lemma ClickPreservesInv(g: GameState, card: int)
    requires Inv(g) && 0 <= card < CardCount && g.visible[card]
    ensures Inv(OnClick(g, card).state)
  {
    if g.clicksLeft > 0 && card != g.mouseCard && !g.gameOver {
      HideOne(g.visible, card);
    }
  }

  /**
   * With no guesses left a click only marks the game over and shows the
   * result again if the game was already over; under the invariant the game
   * is already over, so nothing changes.
   */
  lemma ClickWithNoGuessesLeft(g: GameState, card: int)
    requires 0 <= card < |g.visible| && g.visible[card] && g.clicksLeft == 0
    ensures OnClick(g, card).state == g.(gameOver := true)
    ensures OnClick(g, card).dialogs == if g.gameOver then [ShowMessage(g)] else []
    ensures Inv(g) ==> OnClick(g, card) == ClickOutcome(g, [ShowMessage(g)])
  {
  }

  /** Any other click spends exactly one guess, so the guesses left stay within 0..3. */
  lemma ClickSpendsOneGuess(g: GameState, card: int)
    requires Inv(g) && 0 <= card < CardCount && g.visible[card] && g.clicksLeft > 0
    ensures OnClick(g, card).state.clicksLeft == g.clicksLeft - 1
    ensures 0 <= OnClick(g, card).state.clicksLeft < GameClicks
  {
  }

  /**
   * Clicking the mouse's card with a guess left wins: one more in the streak
   * and as many points as there were guesses left before the click (1 to 3);
   * no card is hidden and a delayed restart is posted.
   */
  lemma ClickOnMouse(g: GameState)
    requires Inv(g) && g.clicksLeft > 0
    ensures var r := OnClick(g, g.mouseCard);
      && r.state.gameOver && r.state.gameWon
      && r.state.currentStreak == g.currentStreak + 1
      && r.state.currentScore == g.currentScore + g.clicksLeft
      && r.state.currentScore == g.currentScore + (r.state.clicksLeft + 1)
      && 1 <= r.state.currentScore - g.currentScore <= GameClicks
      && r.state.visible == g.visible
      && r.state.pendingResets == g.pendingResets + 1
      && r.dialogs[|r.dialogs| - 1] == WinDialog
  {
  }

  /**
   * A wrong card clicked while the game runs is hidden and nothing else is;
   * score and streak stay; the game is lost exactly when that was the last
   * guess, and then the lose dialog names the mouse's card.
   */
  lemma ClickMiss(g: GameState, card: int)
    requires Inv(g) && 0 <= card < CardCount && g.visible[card]
    requires card != g.mouseCard && !g.gameOver
    ensures var r := OnClick(g, card);
      && r.state == g.(clicksLeft := g.clicksLeft - 1, visible := g.visible[card := false],
                       gameOver := g.clicksLeft == 1)
      && HiddenCount(r.state.visible) == HiddenCount(g.visible) + 1
      && r.dialogs == (if g.clicksLeft == 1 then [LoseDialog(g.mouseCard + 1)] else [])
  {
    HideOne(g.visible, card);
  }

  /**
   * During the delay after a win, a click on another card still spends a
   * guess but hides nothing and awards nothing; it shows the win dialog again.
   */
  lemma ClickAfterWin(g: GameState, card: int)
    requires Inv(g) && 0 <= card < CardCount && g.visible[card]
    requires g.gameWon && g.clicksLeft > 0 && card != g.mouseCard
    ensures OnClick(g, card) == ClickOutcome(g.(clicksLeft := g.clicksLeft - 1), [WinDialog])
  {
  }

  /**
   * During the delay after a win, clicking the mouse's card again wins again:
   * the streak and score are awarded a second time and another restart is posted.
   */
  lemma WinAgainDuringDelay(g: GameState)
    requires Inv(g) && g.gameWon && g.clicksLeft > 0
    ensures var r := OnClick(g, g.mouseCard);
      && r.state.currentStreak == g.currentStreak + 1
      && r.state.currentScore == g.currentScore + g.clicksLeft
      && r.state.pendingResets == g.pendingResets + 1
      && r.dialogs == [WinDialog, WinDialog]
  {
  }

  /** After a loss a click changes nothing and shows the lose dialog again. */
  lemma ClickAfterLoss(g: GameState, card: int)
    requires Inv(g) && 0 <= card < CardCount && g.visible[card]
    requires g.gameOver && !g.gameWon
    ensures OnClick(g, card) == ClickOutcome(g, [LoseDialog(g.mouseCard + 1)])
  {
  }

  /** A lost game has exactly three cards hidden and the mouse's card still shown. */
  lemma LostGameShowsMouse(g: GameState)
    requires Inv(g) && g.gameOver && !g.gameWon
    ensures HiddenCount(g.visible) == GameClicks && g.visible[g.mouseCard]
    ensures ShowMessage(g) == LoseDialog(g.mouseCard + 1) && 1 <= g.mouseCard + 1 <= CardCount
  {
  }

  // ---------------------------------------------------------------------
  // Keys

  /**
   * Menu and search reset the session only when the game is over; mid-game,
   * and for every other key, nothing changes.
   */
  lemma KeyResetsOnlyWhenOver(g: GameState, key: Key, draw: int)
    requires 0 <= draw < CardCount
    ensures (key == MenuKey || key == SearchKey) && g.gameOver ==>
      OnKeyDown(g, key, draw) == ResetGame(g, true, draw)
    ensures !((key == MenuKey || key == SearchKey) && g.gameOver) ==>
      OnKeyDown(g, key, draw) == g
  {
  }

  // ---------------------------------------------------------------------
  // Runs of events

  /** Every event keeps the invariant. */
  lemma StepPreservesInv(g: GameState, e: Event)
    requires Inv(g) && DrawOk(e)
    ensures Inv(Step(g, e))
  {
    match e
    case Click(card) =>
      if 0 <= card < |g.visible| && g.visible[card] {
        ClickPreservesInv(g, card);
      }
    case TimerFired(draw) =>
    case KeyPress(key, draw) =>
  }

  /** The invariant holds after any sequence of events. */
  lemma {:induction false} RunPreservesInv(g: GameState, evs: seq<Event>)
    requires Inv(g)
    requires forall k :: 0 <= k < |evs| ==> DrawOk(evs[k])
    ensures Inv(Run(g, evs))
    decreases |evs|
  {
    if evs != [] {
      StepPreservesInv(g, evs[0]);
      RunPreservesInv(Step(g, evs[0]), evs[1..]);
    }
  }

  /** Every session launched by the activity stays within the invariant. */
  lemma {:induction false} EveryReachableStateValid(draw: int, evs: seq<Event>)
    requires 0 <= draw < CardCount
    requires forall k :: 0 <= k < |evs| ==> DrawOk(evs[k])
    ensures Inv(Run(Launch(draw), evs))
  {
    RunPreservesInv(Launch(draw), evs);
  }

  /**
   * While only cards are clicked, the mouse stays under the same card, score
   * and streak never fall, guesses are never regained and hidden cards stay hidden.
   */
  lemma {:induction false} ClicksKeepTheGame(g: GameState, evs: seq<Event>)
    requires Inv(g)
    requires forall k :: 0 <= k < |evs| ==> evs[k].Click?
    ensures var r := Run(g, evs);
      && r.mouseCard == g.mouseCard
      && r.currentScore >= g.currentScore && r.currentStreak >= g.currentStreak
      && r.clicksLeft <= g.clicksLeft
      && |r.visible| == |g.visible|
      && forall k :: 0 <= k < |g.visible| && r.visible[k] ==> g.visible[k]
    decreases |evs|
  {
    if evs != [] {
      var g1 := Step(g, evs[0]);
      StepPreservesInv(g, evs[0]);
      ClicksKeepTheGame(g1, evs[1..]);
    }
  }

  /**
   * A lost game posts no restart, so with nothing posted it stays as it is
   * under taps and timers: only the menu or search key starts a new game.
   */
  lemma {:induction false} LossWaitsForKey(g: GameState, evs: seq<Event>)
    requires Inv(g) && g.gameOver && !g.gameWon && g.pendingResets == 0
    requires forall k :: 0 <= k < |evs| ==> evs[k].Click? || evs[k].TimerFired?
    requires forall k :: 0 <= k < |evs| ==> DrawOk(evs[k])
    ensures Run(g, evs) == g
    decreases |evs|
  {
    if evs != [] {
      if evs[0].Click? && 0 <= evs[0].card < |g.visible| && g.visible[evs[0].card] {
        ClickAfterLoss(g, evs[0].card);
      }
      assert Step(g, evs[0]) == g;
      LossWaitsForKey(g, evs[1..]);
    }
  }

  /**
   * Once a run of events has lost a game with no restart posted, any further
   * taps and timers leave the state where that run left it.
   */
  lemma {:induction false} LostRunStaysLost(g: GameState, a: seq<Event>, b: seq<Event>)
    requires Inv(g)
    requires forall k :: 0 <= k < |a| ==> DrawOk(a[k])
    requires forall k :: 0 <= k < |b| ==> DrawOk(b[k])
    requires forall k :: 0 <= k < |b| ==> b[k].Click? || b[k].TimerFired?
    requires Run(g, a).gameOver && !Run(g, a).gameWon && Run(g, a).pendingResets == 0
    ensures forall k :: 0 <= k < |a + b| ==> DrawOk((a + b)[k])
    ensures Run(g, a + b) == Run(g, a)
  {
    RunAppend(g, a, b);
    RunPreservesInv(g, a);
    LossWaitsForKey(Run(g, a), b);
  }

  // ---------------------------------------------------------------------
  // Worked games

  /** The mouse under card 2 and guesses 0, 1, 3: the third guess loses and names card 3. */
  lemma LoseScenario(g: GameState)
    requires SessionInv(g)
    ensures var s0 := StartGame(g, 2);
      var s1 := OnClick(s0, 0).state;
      var s2 := OnClick(s1, 1).state;
      var o3 := OnClick(s2, 3);
      && o3.state.gameOver && !o3.state.gameWon && o3.state.clicksLeft == 0
      && o3.dialogs == [LoseDialog(3)]
      && o3.state.currentScore == g.currentScore
  {
  }

  /** The mouse under card 4, found at once: a win with two guesses left, worth three points. */
  lemma WinScenario(g: GameState)
    requires SessionInv(g)
    ensures var o := OnClick(StartGame(g, 4), 4);
      && o.state.gameWon && o.state.clicksLeft == 2
      && o.dialogs == [WinDialog]
      && o.state.currentScore == g.currentScore + 3
      && o.state.currentStreak == g.currentStreak + 1
  {
  }
}
