/** The game's top-level phases: the intro screen, play, the game-over
    screen, and quitting the application. Each call of `Frame` handles one
    pass of the loop of the current phase with the events queued since the
    last pass. */
module Session {
  import opened Grid
  import opened Controls
  import opened Body
  import opened Food
  import opened Gameplay

  datatype Phase = Intro | Playing | GameOver | Quit

  /** Whether a batch asks to leave the application: the close button or Q. */
  predicate AsksToQuit(events: seq<Event>) {
    Close in events || KeyDown(Q) in events
  }

  /** The intro screen's reaction to a batch: Q or closing quits, even when
      SPACE is in the same batch; otherwise SPACE starts a game. */
  function IntroNext(events: seq<Event>): Phase {
    if AsksToQuit(events) then Quit
    else if KeyDown(Space) in events then Playing
    else Intro
  }

  /** The game-over screen's reaction to a batch: C restarts from the intro
      as soon as it is read, even after a Q or a close earlier in the same
      batch; otherwise Q or closing quits. */
  function GameOverNext(events: seq<Event>): Phase {
    if KeyDown(C) in events then Intro
    else if AsksToQuit(events) then Quit
    else GameOver
  }

  /** The phase after a pass of the play loop: closing the window quits once
      the tick has finished, even on a losing tick; a collision ends the game. */
  function PlayingNext(closed: bool, outcome: Outcome): Phase {
    if closed then Quit
    else if outcome != Ok then GameOver
    else Playing
  }

  /** One pass of the intro loop: its flags `intro_active` and
      `quit_game_app` are updated event by event. */
  method IntroFrame(events: seq<Event>) returns (next: Phase)
    ensures next == IntroNext(events)
  {
    var active, quit := true, false;
    var i := 0;
    while i < |events|
      invariant 0 <= i <= |events|
      invariant quit <==> AsksToQuit(events[..i])
      invariant active <==> !quit && KeyDown(Space) !in events[..i]
    {
      var e := events[i];
      if e.Close? {
        active, quit := false, true;
      }
      if e.KeyDown? {
        if e.key == Space {
          active := false;
        }
        if e.key == Q {
          active, quit := false, true;
        }
      }
      assert events[..i + 1] == events[..i] + [e];
      i := i + 1;
    }
    assert events[..i] == events;
    next := if quit then Quit else if !active then Playing else Intro;
  }

  /** One pass of the game-over loop: closing or Q sets the quit flag, and C
      restarts at once, leaving the rest of the batch unread. */
  method GameOverFrame(events: seq<Event>) returns (next: Phase)
    ensures next == GameOverNext(events)
  {
    var quit := false;
    var i := 0;
    while i < |events|
      invariant 0 <= i <= |events|
      invariant quit <==> AsksToQuit(events[..i])
      invariant KeyDown(C) !in events[..i]
    {
      var e := events[i];
      if e.Close? {
        quit := true;
      }
      if e.KeyDown? {
        if e.key == Q {
          quit := true;
        }
        if e.key == C {
          return Intro;
        }
      }
      assert events[..i + 1] == events[..i] + [e];
      i := i + 1;
    }
    assert events[..i] == events;
    next := if quit then Quit else GameOver;
  }

  /** The application: the current phase and the game being played or just
      lost. Restarting replaces the game instead of calling the loop again. */
  class Controller {
    var phase: Phase
    var game: Game?

    /** No game exists on the intro screen; during play the game goes on,
        and on the game-over screen the game just lost is kept. */
    ghost predicate Valid()
      reads this, game
    {
      (phase == Intro ==> game == null) &&
      (phase == Playing || phase == GameOver ==> game != null && game.Valid()) &&
      (phase == Playing ==> !game.over) &&
      (phase == GameOver ==> game.over)
    }

    /** The application starts on the intro screen with no game. */
    constructor ()
      ensures Valid() && phase == Intro && game == null
    {
      phase := Intro;
      game := null;
    }

    /** One pass of the current phase's loop with a batch of events; `draws`
        supplies the random food positions this pass may need. */
    method Frame(events: seq<Event>, draws: seq<Draw>)
      requires Valid()
      requires phase == Intro && IntroNext(events) == Playing ==> HasFreeDraw(draws, [StartCell])
      requires phase == Playing ==>
        game.Landing(events) == game.food ==> HasFreeDraw(draws, AppendTrim(game.segments, game.food, game.length))
      modifies this, game
      ensures Valid()
      ensures old(phase) == Intro ==>
        phase == IntroNext(events) &&
        (phase == Playing ==> fresh(game) && game.Initial())
      ensures old(phase) == Playing ==>
        game == old(game) && game.score >= old(game.score) && game.length >= old(game.length) &&
        phase == PlayingNext(Close in events, Collision(game.Head(), game.segments, old(game.length)))
      ensures old(phase) == GameOver ==>
        phase == GameOverNext(events) &&
        (phase == Intro ==> game == null) &&
        (phase != Intro ==> game == old(game) && unchanged(game))
      ensures old(phase) == Quit ==> unchanged(this) && (game != null ==> unchanged(game))
    {
      if phase == Intro {
        var next := IntroFrame(events);
        if next == Playing {
          game := new Game.Start(draws);
        }
        phase := next;
      } else if phase == Playing {
        var outcome, closed := game.Tick(events, draws);
        phase := PlayingNext(closed, outcome);
      } else if phase == GameOver {
        var next := GameOverFrame(events);
        if next == Intro {
          game := null;
        }
        phase := next;
      }
    }
  }
}
