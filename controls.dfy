/** The controls of script.js:107-142: a key press or a one-finger swipe
    chooses a direction, and a chosen direction triggers a move. */
module Controls {
  import opened Spawn
  import opened Game

  datatype Option<T> = None | Some(value: T)

  /** `c.toLowerCase()` restricted to ASCII: A-Z become a-z, every other
      character (non-ASCII capitals included) is kept. */
  function LowerChar(c: char): (l: char)
    ensures !('A' <= l <= 'Z')
    ensures 'A' <= c <= 'Z' ==> 'a' <= l <= 'z'
    ensures !('A' <= c <= 'Z') ==> l == c
  {
    if 'A' <= c <= 'Z' then (c as int + 32) as char else c
  }

  /** `key.toLowerCase()` restricted to ASCII, character by character. */
  function LowerCase(s: string): (r: string)
    ensures |r| == |s| && forall i :: 0 <= i < |r| ==> !('A' <= r[i] <= 'Z')
    ensures (forall i :: 0 <= i < |s| ==> !('A' <= s[i] <= 'Z')) ==> r == s
  {
    seq(|s|, i requires 0 <= i < |s| => LowerChar(s[i]))
  }

  /** The `keys` object of script.js:108-113. */
  const Keys: map<string, Direction> := map[
    "arrowleft" := Left, "a" := Left,
    "arrowright" := Right, "d" := Right,
    "arrowup" := Up, "w" := Up,
    "arrowdown" := Down, "s" := Down]

  /** The two lower-case key names bound to each direction: an arrow key
      and a letter key. This is the `Keys` table read the other way round;
      `KeyDirectionNames` proves the two agree. */
  function KeyNames(d: Direction): set<string> {
    match d
    case Left => {"arrowleft", "a"}
    case Right => {"arrowright", "d"}
    case Up => {"arrowup", "w"}
    case Down => {"arrowdown", "s"}
  }

  /** `keys[key.toLowerCase()]`, `None` standing for `undefined`. */
  function KeyDirection(key: string): (r: Option<Direction>)
    ensures r.None? <==> LowerCase(key) !in Keys
  {
    var k := LowerCase(key);
    if k in Keys then Some(Keys[k]) else None
  }

  /** A key moves in direction `d` exactly when its lower-case form is one
      of the two names bound to `d`. */
  lemma KeyDirectionNames(key: string, d: Direction)
    ensures KeyDirection(key) == Some(d) <==> LowerCase(key) in KeyNames(d)
  {
    var k := LowerCase(key);
    if k in KeyNames(d) {
      assert k in Keys && Keys[k] == d;
    }
    if KeyDirection(key) == Some(d) {
      assert k in Keys && Keys[k] == d;
      assert k in Keys.Keys;
    }
  }

  /** The lookup ignores case: a key and its lower-case form choose the same
      direction. */
  lemma KeyCaseInsensitive(key: string)
    ensures KeyDirection(key) == KeyDirection(LowerCase(key))
  {
    assert LowerCase(LowerCase(key)) == LowerCase(key);
  }

  /** "ArrowUp", "w" and "W" all move up. */
  lemma UpKeys()
    ensures KeyDirection("ArrowUp") == Some(Up)
    ensures KeyDirection("w") == Some(Up)
    ensures KeyDirection("W") == Some(Up)
  {
    assert LowerCase("ArrowUp") == "arrowup";
    assert LowerCase("w") == "w";
    assert LowerCase("W") == "w";
  }

  /** Keys outside the map, such as "Enter" and "x", produce no move. */
  lemma UnboundKeys()
    ensures KeyDirection("Enter") == None
    ensures KeyDirection("x") == None
  {
    assert LowerCase("Enter") == "enter";
    assert LowerCase("x") == "x";
  }

  function Abs(v: int): (a: nat)
    ensures a == v || a == -v
  {
    if v < 0 then -v else v
  }

  /** The smallest travel, in pixels, along either axis that counts as a
      swipe rather than a tap (script.js:135). */
  const SwipeThreshold: int := 30

  /** The `touchend` rule of script.js:135-141 for a swipe of (dx, dy). */
  function SwipeDirection(dx: int, dy: int): (r: Option<Direction>)
    ensures r == None <==> Abs(dx) < SwipeThreshold && Abs(dy) < SwipeThreshold
    ensures r == Some(Right) <==> dx >= SwipeThreshold && dx > Abs(dy)
    ensures r == Some(Left) <==> dx <= -SwipeThreshold && -dx > Abs(dy)
    ensures r == Some(Down) <==> dy >= SwipeThreshold && dy >= Abs(dx)
    ensures r == Some(Up) <==> dy <= -SwipeThreshold && -dy >= Abs(dx)
  {
    if Abs(dx) < SwipeThreshold && Abs(dy) < SwipeThreshold then None
    else if Abs(dx) > Abs(dy) then Some(if dx > 0 then Right else Left)
    else Some(if dy > 0 then Down else Up)
  }

  function Opposite(d: Direction): (o: Direction)
    ensures o != d
  {
    match d
    case Left => Right
    case Right => Left
    case Up => Down
    case Down => Up
  }

  /** Swiping the other way round moves the opposite way. */
  lemma SwipeReversed(dx: int, dy: int)
    ensures SwipeDirection(-dx, -dy) ==
      match SwipeDirection(dx, dy)
      case None => None
      case Some(d) => Some(Opposite(d))
  {
    assert Abs(-dx) == Abs(dx) && Abs(-dy) == Abs(dy);
  }

  /** A diagonal swipe, equally long on both axes, goes vertical. */
  lemma SwipeTieVertical(dx: int, dy: int)
    requires Abs(dx) == Abs(dy) >= SwipeThreshold
    ensures SwipeDirection(dx, dy) == Some(if dy > 0 then Down else Up)
  {
  }

  /** A swipe of 40 pixels left and 5 down moves left; one of 10 by 10 is a
      tap. */
  lemma SwipeExamples()
    ensures SwipeDirection(-40, 5) == Some(Left)
    ensures SwipeDirection(10, 10) == None
  {
  }

  /** The `keydown` listener of script.js:115-118. */
  method KeyDown(g: Game, key: string, pick: Draw, tile: Draw)
    requires g.Valid() && pick.Valid() && tile.Valid()
    modifies g
    ensures g.Valid()
    ensures g.board ==
      match KeyDirection(key)
      case None => old(g.board)
      case Some(d) =>
        if Commits(old(g.board), d) then SpawnResult(Resolved(old(g.board), d), pick, tile)
        else old(g.board)
  {
    var dir := KeyDirection(key);
    if dir.Some? {
      g.Move(dir.value, pick, tile);
    }
  }

  /** The `touchend` listener of script.js:129-142, given the travel of the
      single finger. */
  method TouchEnd(g: Game, dx: int, dy: int, pick: Draw, tile: Draw)
    requires g.Valid() && pick.Valid() && tile.Valid()
    modifies g
    ensures g.Valid()
    ensures g.board ==
      match SwipeDirection(dx, dy)
      case None => old(g.board)
      case Some(d) =>
        if Commits(old(g.board), d) then SpawnResult(Resolved(old(g.board), d), pick, tile)
        else old(g.board)
  {
    var dir := SwipeDirection(dx, dy);
    if dir.Some? {
      g.Move(dir.value, pick, tile);
    }
  }
}
