# Snake game core in Dafny

A model of the game logic inside `game_loop` of the Python snake game
(`Snake.py`): the snake's per-tick simulation and the top-level phases
(intro screen, play, game-over screen, quit). Drawing, fonts, the window and
the frame clock are left to the outside.

The model follows the program's structure:

- `grid.dfy` (module `Grid`): the 800 x 600 screen, 20-pixel blocks, block
  positions (`Cell`), the wall test, grid alignment, the random draws that
  place food, and the linear search the loop runs over its segment list.
- `controls.dfy` (module `Controls`): keys and events, the reversal guard
  (`Turn`), the fold of a tick's whole event batch into the last accepted
  key (`Steer`), and the event loop of one tick (`PollPlaying`).
- `body.dfy` (module `Body`): the move of the head (`Move`), append and
  trim of the segment list (`AppendTrim`), the collision test
  (`Collision`: wall first, then the older segments when the length is
  above 1), and the middle of a tick as a method (`Settle`).
- `food.dfy` (module `Food`): rejection sampling of the food position over
  a supplied sequence of draws; `FirstFree` is its specification and
  `PlaceFood` the retry loop.
- `gameplay.dfy` (module `Gameplay`): class `Game` holds the loop's local
  state (`snake_x`, `snake_y`, the velocity, `last_key_pressed`, the
  segment list, length, score, food, the game-over flag). `Start` is the
  initialisation, `Tick` one pass of the play loop; the work of that pass
  on the loop's values is the method `Advance`, which `Tick` stores back. `Valid` is the
  invariant kept between ticks: the list holds `length` segments (one fewer
  right after eating), its newest entry is the head, the score is 10 per
  food eaten, the food is an aligned block off the snake, and while the game
  goes on the snake lies on the grid and never overlaps itself.
- `session.dfy` (module `Session`): the phases. `IntroNext`,
  `GameOverNext` and `PlayingNext` say declaratively what a batch of events
  does in each phase; `IntroFrame` and `GameOverFrame` are the event loops
  proved to agree with them; class `Controller` runs one frame of the
  current phase. A restart after game over goes back to the intro and the
  next SPACE builds a fresh `Game`, instead of calling the loop again.

Behaviour of the code that the model keeps on purpose:

- All queued key events of a tick are applied in order, each checked
  against the last key accepted, not against the direction of the previous
  move. So a rule of one turn per tick does not hold: Up then Left in one
  batch reverses a snake that moves right (`Controls.TwoKeysCanReverse`),
  and a snake of length 3 then runs into its own neck
  (`Body.ReversalIntoNeck`).
- On the game-over screen a C restarts as soon as it is read, so a batch
  holding Q (or a close) and then C restarts rather than quits.
- During play, closing the window lets the current tick finish (including
  eating) and then quits; this wins over a game over on the same tick.
- The segment list starts empty, so right after eating it holds one entry
  fewer than `length`; after each tick its size equals the length that held
  during that tick.

## Model

| member | source | states |
|---|---|---|
| Grid.DrawCell | Snake.py:143-144 | a column/row draw denotes a block aligned to the grid and inside the screen |
| Grid.DrawsCoverGrid | Snake.py:222-223 | a position is an aligned block inside the screen exactly when some draw denotes it, and no two draws denote the same block |
| Grid.Scan | Snake.py:196-199 | the search reports a hit exactly when the position is in the list |
| Controls.Steer | Snake.py:154-175 | starting from an arrow key, the last accepted key after a batch is again an arrow key |
| Controls.TurnAccepts | Snake.py:160-175 | a key press becomes the last accepted key exactly when it is an arrow key other than the opposite of the last one (or equals it); a refused press changes nothing |
| Controls.TurnNeverReverses | Snake.py:159-175 | a single event never sets the opposite of the last accepted key |
| Controls.SteerFromBatch | Snake.py:154-175 | after a batch the key is the previous one or an arrow key pressed in the batch |
| Controls.SteerConcat | Snake.py:154-175 | steering by a batch equals steering by its first part and then by the rest, since the loop reads events in queue order |
| Controls.SteerIgnoresNonArrows | Snake.py:154-175 | close events, Space, Q, C and other events at the end of a batch do not change the direction |
| Controls.SteerSkipsNonArrows | Snake.py:154-175 | close events, Space, Q, C and other events anywhere in a batch, also between arrow keys, do not change the direction |
| Controls.SteerLastAcceptedWins | Snake.py:154-175 | an accepted arrow key at the end of a batch decides the direction whatever came before |
| Controls.TwoKeysCanReverse | Snake.py:159-175 | moving right, Up then Left in one batch leaves the snake moving left |
| Controls.PollPlaying | Snake.py:154-175 | the event loop of a tick yields the key of `Steer`, the velocity of that key, and whether a close event was queued |
| Body.MoveOneBlock | Snake.py:178-179 | a tick moves the head exactly one block along one axis in the key's direction |
| Body.MoveStaysAligned | Snake.py:178-183 | from an aligned block the head lands on another block, and it is on the grid exactly when the wall test passes |
| Body.AppendTrim | Snake.py:186-192 | after the append and the trim the list is non-empty and its newest entry is the new head |
| Body.AppendTrimWindow | Snake.py:186-192 | with the list holding length or length-1 entries, it ends up holding exactly `length`, the newest ones of the old list plus the head, in order |
| Body.AppendTrimNeck | Snake.py:186-192 | the older segments afterwards are a suffix of the old list: at most the oldest entry was removed |
| Body.AppendTrimFrom | Snake.py:186-192 | every segment afterwards was a segment before or is the new head |
| Body.WallHitIff | Snake.py:183 | a wall hit is flagged exactly when the head is outside [0,800) x [0,600), whatever the body holds |
| Body.SelfHitIff | Snake.py:194-199 | a self hit is flagged exactly when the head is inside the screen, the length is above 1 and the head is on a segment other than the newest |
| Body.LengthTwoNeverSelfCollides | Snake.py:194-199 | a snake of length 1 or 2 never hits itself, even when it reverses |
| Body.FoodStaysOff | Snake.py:186-192 | food off the snake and off the new head is off the snake after the tick |
| Body.CollisionSparesFood | Snake.py:181-202 | on a losing tick the food is neither under the new head nor under any segment |
| Body.SettledOnGrid | Snake.py:183-192 | after a tick without collision every segment is an aligned block on the screen |
| Body.SettledDistinct | Snake.py:183-199 | after a tick without collision a snake that did not overlap itself still does not |
| Body.ReversalIntoNeck | Snake.py:159-199 | a length-3 snake moving right that reads Up then Left lands on its neck and hits itself |
| Body.Settle | Snake.py:181-199 | the wall test, append, trim and self search yield `AppendTrim` and `Collision` of the new head |
| Food.FirstFree | Snake.py:221-231 | the chosen draw lands off the snake and every earlier draw landed on it |
| Food.PlaceFood | Snake.py:221-231 | the retry loop takes exactly the draws up to the first one off the snake and places the food on that aligned block |
| Gameplay.StartCellIsCentre | Snake.py:128-130 | the start head is (400, 300), an aligned block |
| Gameplay.LosingTickConsistent | Snake.py:181-202 | a tick that hits a wall or the body keeps the invariant with the game over, and length, score and food unchanged |
| Gameplay.EatingTickConsistent | Snake.py:217-234 | a tick that lands on the food keeps the invariant with the length one longer, 10 more points and new food off the grown list |
| Gameplay.PlainTickConsistent | Snake.py:181-199 | a tick that neither loses nor eats keeps the invariant with length, score and food unchanged |
| Gameplay.Advance | Snake.py:152-234 | one pass of the play loop on the loop's values: the key is `Steer` of the batch, the head moves one block, the list is `AppendTrim`, the outcome is `Collision`; eating adds 1 to the length and 10 to the score and places food by `FirstFree`; otherwise length, score and food are unchanged; the invariant holds afterwards |
| Gameplay.Game.Start | Snake.py:127-149 | a new game: head at the start cell moving right, no segments, length 1, score 0, food on an aligned block other than the start cell, chosen by the first draw off it |
| Gameplay.Game.Tick | Snake.py:152-234 | one tick: the key is `Steer` of the batch, the head moves one block, the list is `AppendTrim`, the outcome is `Collision` with the length of the tick; on a collision length, score and food are unchanged; otherwise eating adds 1 to the length and 10 to the score and draws food off the snake, and not eating changes none of them; the invariant is kept |
| Session.IntroFrame | Snake.py:99-125 | the intro loop's flags give `IntroNext`: Q or close quits even with SPACE in the batch, otherwise SPACE starts play |
| Session.GameOverFrame | Snake.py:242-268 | the game-over loop gives `GameOverNext`: C restarts from the intro, otherwise Q or close quits |
| Session.Controller.constructor | Snake.py:92-99 | the application starts on the intro screen with no game; the invariant holds: no game on the intro screen, a running valid game during play, the lost game on the game-over screen |
| Session.Controller.Frame | Snake.py:99-268 | one frame: intro follows `IntroNext` and starting builds a fresh initial game; play runs a tick and follows `PlayingNext` with score and length not decreasing; game over follows `GameOverNext` and a restart drops the old game; quit changes nothing |

## Left out

- Drawing (`display_score`, `draw_snake`, `display_message`, screen fills, rectangles, the food circle, display updates), font loading with its fallback, window creation, `pygame.init`/`pygame.quit`: pixel output and library plumbing with no effect on the game state.
- The frame clock (`clock.tick`): the pace of ticks, not their effect.
- Process exit (`sys.exit`) and the recursive call of `game_loop` on restart: modelled as the `Quit` phase, in which `Frame` does nothing, and as a return to the `Intro` phase; the growth of the call stack across restarts is not modelled.
- Randomness: `random.randrange` is replaced by a sequence of supplied column/row draws.
- Food.PlaceFood: requires that some supplied draw lands off the snake; the program retries forever when none does (a board full of snake), and that endless loop is not modelled. The same requirement is passed on by `Gameplay.Game.Start`, `Gameplay.Game.Tick` and `Session.Controller.Frame`.
- Floating point: the head coordinates are floats in the program but always hold whole numbers; they are integers here.
- Event kinds other than the close button and key presses, and keys other than the arrows, SPACE, Q and C, are each one ignored variant.
- The commented-out speed-up of the frame rate: it has no behaviour.
- The loop keeps one game-over flag; the model's `Outcome` also tells a wall hit from a self hit, wall first, which is the order of the tests.
- Session.Controller.Frame: for the play phase it states the phase change and that score and length do not decrease; the game's full new state is the contract of `Gameplay.Game.Tick`.
