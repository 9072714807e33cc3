/** Keyboard input during play: arrow keys steer the snake, and a key is
    refused when it is the exact opposite of the last key accepted. */
module Controls {
  import opened Grid

  /** The keys the game reacts to; `OtherKey` stands for every other key. */
  datatype Key = Left | Right | Up | Down | Space | Q | C | OtherKey

  /** One entry of the event queue: the window's close button, a key press,
      or any other event (mouse, resize, ...), which the game ignores. */
  datatype Event = Close | KeyDown(key: Key) | OtherEvent

  predicate IsArrow(k: Key) {
    k.Left? || k.Right? || k.Up? || k.Down?
  }

  function Opposite(k: Key): Key
    requires IsArrow(k)
  {
    match k
    case Left => Right
    case Right => Left
    case Up => Down
    case Down => Up
  }

  /** The per-tick movement (x change, y change) that an arrow key sets. */
  function Velocity(k: Key): (int, int)
    requires IsArrow(k)
  {
    match k
    case Left => (-BlockSize, 0)
    case Right => (BlockSize, 0)
    case Up => (0, -BlockSize)
    case Down => (0, BlockSize)
  }

  /** Whether a key press is taken as the new direction when `last` is the
      last key accepted. */
  predicate Accepts(last: Key, k: Key) {
    IsArrow(k) && last != Opposite(k)
  }

  /** The last accepted key after one event. */
  function Turn(last: Key, e: Event): Key {
    if e.KeyDown? && Accepts(last, e.key) then e.key else last
  }

  /** The last accepted key after a tick's whole batch of events, applied in
      the order they were queued; starting from an arrow key it stays one. */
  function Steer(last: Key, events: seq<Event>): (k: Key)
    ensures IsArrow(last) ==> IsArrow(k)
  {
    if events == [] then last
    else Turn(Steer(last, events[..|events| - 1]), events[|events| - 1])
  }

  /** A key press is taken exactly when it is an arrow key that is not the
      opposite of the last accepted one; a refused press changes nothing. */
  lemma TurnAccepts(last: Key, k: Key)
    requires IsArrow(last)
    ensures Turn(last, KeyDown(k)) == k <==> (IsArrow(k) && k != Opposite(last)) || k == last
    ensures Turn(last, KeyDown(k)) != k ==> Turn(last, KeyDown(k)) == last
  {
  }

  /** A single event never turns the snake back on itself. */
  lemma TurnNeverReverses(last: Key, e: Event)
    requires IsArrow(last)
    ensures IsArrow(Turn(last, e)) && Turn(last, e) != Opposite(last)
  {
  }

  /** The direction after a batch is the one before it or a key pressed in it. */
  lemma {:induction false} SteerFromBatch(last: Key, events: seq<Event>)
    ensures Steer(last, events) == last || KeyDown(Steer(last, events)) in events
  {
    if events != [] {
      var init := events[..|events| - 1];
      SteerFromBatch(last, init);
      assert forall e :: e in init ==> e in events;
    }
  }

  /** Steering by a batch is steering by its first part, then by the rest. */
  lemma {:induction false} SteerConcat(last: Key, events: seq<Event>, rest: seq<Event>)
    ensures Steer(last, events + rest) == Steer(Steer(last, events), rest)
  {
    if rest == [] {
      assert events + rest == events;
    } else {
      var init := rest[..|rest| - 1];
      assert (events + rest)[..|events + rest| - 1] == events + init;
      assert (events + rest)[|events + rest| - 1] == rest[|rest| - 1];
      SteerConcat(last, events, init);
    }
  }

  /** Events that are not arrow presses (closing, Space, Q, other keys, other
      events) leave the direction as it was, at the end of a batch. */
  lemma {:induction false} SteerIgnoresNonArrows(last: Key, events: seq<Event>, tail: seq<Event>)
    requires forall i :: 0 <= i < |tail| ==> !(tail[i].KeyDown? && IsArrow(tail[i].key))
    ensures Steer(last, events + tail) == Steer(last, events)
  {
    if tail != [] {
      var init := tail[..|tail| - 1];
      assert (events + tail)[..|events + tail| - 1] == events + init;
      assert (events + tail)[|events + tail| - 1] == tail[|tail| - 1];
      assert forall i :: 0 <= i < |init| ==> init[i] == tail[i];
      SteerIgnoresNonArrows(last, events, init);
      var e := tail[|tail| - 1];
      assert !(e.KeyDown? && IsArrow(e.key));
    } else {
      assert events + tail == events;
    }
  }

  /** Non-arrow events leave the direction as it was wherever they appear in
      the batch: removing them from between arrow presses changes nothing. */
  lemma SteerSkipsNonArrows(last: Key, before: seq<Event>, noise: seq<Event>, after: seq<Event>)
    requires forall i :: 0 <= i < |noise| ==> !(noise[i].KeyDown? && IsArrow(noise[i].key))
    ensures Steer(last, before + noise + after) == Steer(last, before + after)
  {
    SteerConcat(last, before + noise, after);
    SteerIgnoresNonArrows(last, before, noise);
    SteerConcat(last, before, after);
  }

  /** An accepted arrow key at the end of a batch decides the direction,
      whatever came before it. */
  lemma SteerLastAcceptedWins(last: Key, events: seq<Event>, k: Key)
    requires Accepts(Steer(last, events), k)
    ensures Steer(last, events + [KeyDown(k)]) == k
  {
  }

  /** The guard compares with the last key accepted, not with the direction
      the snake moved in: within one batch, Up then Left turns a snake that
      is moving right straight back to the left. */
  lemma TwoKeysCanReverse()
    ensures Steer(Right, [KeyDown(Up), KeyDown(Left)]) == Opposite(Right)
  {
  }

  /** The event loop of one tick: it folds the batch into the last accepted
      key and the velocity, and notes whether the window was closed. */
  method PollPlaying(last: Key, vx: int, vy: int, events: seq<Event>)
    returns (key: Key, dx: int, dy: int, closed: bool)
    requires IsArrow(last) && (vx, vy) == Velocity(last)
    ensures key == Steer(last, events)
    ensures IsArrow(key) && (dx, dy) == Velocity(key)
    ensures closed <==> Close in events
  {
    key, dx, dy, closed := last, vx, vy, false;
    var i := 0;
    while i < |events|
      invariant 0 <= i <= |events|
      invariant key == Steer(last, events[..i])
      invariant IsArrow(key) && (dx, dy) == Velocity(key)
      invariant closed <==> Close in events[..i]
    {
      var e := events[i];
      ghost var before := key;
      if e.Close? {
        closed := true;
      }
      if e.KeyDown? {
        if e.key == Left && key != Right {
          dx, dy, key := -BlockSize, 0, Left;
        } else if e.key == Right && key != Left {
          dx, dy, key := BlockSize, 0, Right;
        } else if e.key == Up && key != Down {
          dx, dy, key := 0, -BlockSize, Up;
        } else if e.key == Down && key != Up {
          dx, dy, key := 0, BlockSize, Down;
        }
      }
      assert key == Turn(before, e);
      assert events[..i + 1] == events[..i] + [e];
      assert events[..i + 1][..i] == events[..i];
      i := i + 1;
    }
    assert events[..i] == events;
  }
}
