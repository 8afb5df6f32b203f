/**
 * `MainActivity` as an object: the game fields are updated in place by the
 * event handlers, and each handler is proved to leave the object in the
 * state the matching function of MouseGame computes.
 */
module FindTheMouse {
  import opened MouseGame

  class MainActivity {
    var gameOver: bool
    var gameWon: bool
    /** The card the mouse is hidden under, 0..4. */
    var mouseCard: int
    /** Guesses left until the game is lost. */
    var clicksLeft: int
    /** Games won in a row. */
    var currentStreak: int
    /** Points accumulated in the session. */
    var currentScore: int
    /** Whether each of the five card buttons is shown. */
    var visible: array<bool>
    /** Delayed restarts posted after a win that have not run yet. */
    var pendingResets: nat

    /** The fields as a value. */
    function Model(): GameState
      reads this, visible
    {
      GameState(gameOver, gameWon, mouseCard, clicksLeft, currentStreak, currentScore,
                visible[..], pendingResets)
    }

    ghost predicate Valid()
      reads this, visible
    {
      visible.Length == CardCount && Inv(Model())
    }

    /** `onCreate`: the field initialisers, then a first game with the mouse under card `draw`. */
    constructor (draw: int)
      requires 0 <= draw < CardCount
      ensures Valid() && fresh(visible)
      ensures Model() == Launch(draw)
    {
      gameOver, gameWon := false, false;
      mouseCard := -1;
      clicksLeft := GameClicks;
      currentStreak, currentScore := 0, 0;
      visible := new bool[CardCount](_ => true);
      pendingResets := 0;
      new;
      assert Model() == Initial();
      StartGame(draw);
    }

    /** `startGame`: clear the end-of-game flags, restore the guesses, hide the mouse anew and show every card. */
    method StartGame(draw: int)
      requires visible.Length == CardCount && 0 <= draw < CardCount
      modifies this, visible
      ensures visible == old(visible)
      ensures Model() == MouseGame.StartGame(old(Model()), draw)
    {
      gameOver := false;
      gameWon := false;
      clicksLeft := GameClicks;
      mouseCard := draw;
      for k := 0 to visible.Length
        invariant forall j :: 0 <= j < k ==> visible[j]
        modifies visible
      {
        visible[k] := true;
      }
      assert visible[..] == AllVisible;
    }

    /** `showMessage`: which dialog the current state puts up. */
    method ShowMessage() returns (d: Dialog)
      ensures d == MouseGame.ShowMessage(Model())
    {
      if gameWon {
        d := WinDialog;
      } else {
        d := LoseDialog(mouseCard + 1);
      }
    }

    /** `doReset`: the rebuilt activity starts a new game; score and streak stay. */
    method DoReset(draw: int)
      requires visible.Length == CardCount && 0 <= draw < CardCount
      modifies this, visible
      ensures visible == old(visible)
      ensures Model() == MouseGame.DoReset(old(Model()), draw)
    {
      StartGame(draw);
    }

    /** `resetGame`: zero score and streak and restart now, or post a restart for later. */
    method ResetGame(resetSession: bool, draw: int)
      requires visible.Length == CardCount
      requires resetSession ==> 0 <= draw < CardCount
      modifies this, visible
      ensures visible == old(visible)
      ensures Model() == MouseGame.ResetGame(old(Model()), resetSession, draw)
    {
      if resetSession {
        currentScore := 0;
        currentStreak := 0;
        DoReset(draw);
      } else {
        // delayRefresh: the restart runs later, from FirePendingReset.
        pendingResets := pendingResets + 1;
      }
    }

    /** The restart posted by `delayRefresh` runs `doReset`. */
    method FirePendingReset(draw: int)
      requires Valid() && pendingResets > 0 && 0 <= draw < CardCount
      modifies this, visible
      ensures Valid() && visible == old(visible)
      ensures Model() == MouseGame.FirePendingReset(old(Model()), draw)
    {
      pendingResets := pendingResets - 1;
      DoReset(draw);
    }

    /**
     * The card click listener, for a click on shown card `card`; returns the
     * dialogs it puts up, in order.
     */
    method OnClick(card: int) returns (dialogs: seq<Dialog>)
      requires Valid() && 0 <= card < CardCount && visible[card]
      modifies this, visible
      ensures Valid() && visible == old(visible)
      ensures ClickOutcome(Model(), dialogs) == MouseGame.OnClick(old(Model()), card)
    {
      ClickPreservesInv(Model(), card);
      dialogs := [];
      if gameOver {
        var d := ShowMessage();
        dialogs := dialogs + [d];
      }
      if clicksLeft == 0 {
        gameOver := true;
        return;
      }
      clicksLeft := clicksLeft - 1;
      if card == mouseCard {
        gameOver := true;
        gameWon := true;
        currentStreak := currentStreak + 1;
        currentScore := currentScore + (clicksLeft + 1);
        var d := ShowMessage();
        dialogs := dialogs + [d];
        ResetGame(false, 0);
      } else if !gameOver {
        visible[card] := false;
        if clicksLeft == 0 {
          gameOver := true;
          var d := ShowMessage();
          dialogs := dialogs + [d];
        }
      }
    }

    /** `onKeyDown`: menu and search reset the session once the game is over; every key is consumed. */
    method OnKeyDown(key: Key, draw: int) returns (handled: bool)
      requires Valid() && 0 <= draw < CardCount
      modifies this, visible
      ensures Valid() && visible == old(visible)
      ensures handled
      ensures Model() == MouseGame.OnKeyDown(old(Model()), key, draw)
    {
      handled := true;
      match key
      case MenuKey | SearchKey =>
        if gameOver {
          ResetGame(true, draw);
        }
      case BackKey | OtherKey =>
        // finish() and super.onKeyDown leave the game fields alone.
    }
  }

  /** A lost game, driven through the object: the mouse under card 2, guesses 0, 1, 3. */
  method LostGame()
  {
    var a := new MainActivity(2);
    var d := a.OnClick(0);
    assert d == [];
    d := a.OnClick(1);
    assert d == [];
    d := a.OnClick(3);
    assert d == [LoseDialog(3)];
    assert a.gameOver && !a.gameWon && a.clicksLeft == 0;
    d := a.OnClick(2);
    assert d == [LoseDialog(3)] && a.clicksLeft == 0;
    var handled := a.OnKeyDown(MenuKey, 1);
    assert a.currentScore == 0 && a.mouseCard == 1 && a.clicksLeft == GameClicks;
  }

  /** A won game and the delay after it: a second click on the mouse's card is awarded again. */
  method WonGame()
  {
    var a := new MainActivity(4);
    var d := a.OnClick(4);
    assert d == [WinDialog] && a.clicksLeft == 2 && a.currentScore == 3 && a.currentStreak == 1;
    d := a.OnClick(4);
    assert d == [WinDialog, WinDialog] && a.currentScore == 5 && a.currentStreak == 2;
    assert a.pendingResets == 2;
    a.FirePendingReset(0);
    assert a.currentScore == 5 && !a.gameOver && a.mouseCard == 0;
  }
}
