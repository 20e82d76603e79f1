/** How the input handlers turn a key or a swipe into a direction of travel
    (`handleKeyboard`, `handleSwipe`). */
module Input {
  import opened Grid

  datatype Option<T> = None | Some(value: T)

  /** A swipe must travel more than this many pixels along its main axis. */
  const SwipeThreshold: int := 30

  function Abs(x: int): nat
  {
    if x < 0 then -x else x
  }

  /** The direction of a swipe from its displacement (dx, dy), or None when it
      is too short.  The horizontal reading wins only when the horizontal
      displacement is strictly the larger; screen y grows downwards. */
  function SwipeDirection(dx: int, dy: int): (r: Option<Direction>)
    ensures r.Some? <==> Abs(dx) > SwipeThreshold || Abs(dy) > SwipeThreshold
    ensures r.Some? ==> (AxisOf(r.value) == Horizontal <==> Abs(dx) > Abs(dy))
    ensures r == Some(Right) ==> dx > 0
    ensures r == Some(Left) ==> dx < 0
    ensures r == Some(Down) ==> dy > 0
    ensures r == Some(Up) ==> dy < 0
  {
    if Abs(dx) > Abs(dy) then
      if Abs(dx) > SwipeThreshold then Some(if dx > 0 then Right else Left) else None
    else
      if Abs(dy) > SwipeThreshold then Some(if dy > 0 then Down else Up) else None
  }

  /** The direction an arrow key stands for; any other key is ignored. */
  function KeyDirection(key: string): (r: Option<Direction>)
    ensures r.Some? <==> key in {"ArrowUp", "ArrowDown", "ArrowLeft", "ArrowRight"}
  {
    if key == "ArrowUp" then Some(Up)
    else if key == "ArrowDown" then Some(Down)
    else if key == "ArrowLeft" then Some(Left)
    else if key == "ArrowRight" then Some(Right)
    else None
  }
}
