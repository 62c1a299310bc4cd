/**
  The keys the game reacts to and the command each one stands for.
 */
module Keys {

  // ncurses' codes for the arrow keys and for "no key pressed".
  const KEY_DOWN := 0x102
  const KEY_UP := 0x103
  const KEY_LEFT := 0x104
  const KEY_RIGHT := 0x105
  const ERR := -1

  /** What one key press does: a unit step of the cursor, a mark cycle, a reveal, or nothing. */
  datatype Command = Step(dy: int, dx: int) | CycleMark | Uncover | Ignore

  predicate IsUp(ch: int)    { ch == KEY_UP    || ch == 'W' as int || ch == 'w' as int }
  predicate IsRight(ch: int) { ch == KEY_RIGHT || ch == 'D' as int || ch == 'd' as int }
  predicate IsLeft(ch: int)  { ch == KEY_LEFT  || ch == 'A' as int || ch == 'a' as int }
  predicate IsDown(ch: int)  { ch == KEY_DOWN  || ch == 'S' as int || ch == 's' as int }

  /**
    The command a key stands for. Movement keys give a step of one tile up,
    right, left or down; space cycles the mark and newline reveals; every other
    key, and the absence of a key, is ignored.
   */
  function Decode(ch: int): (cmd: Command)
    ensures cmd.Step? <==> IsUp(ch) || IsRight(ch) || IsLeft(ch) || IsDown(ch)
    ensures cmd.Step? ==> (cmd.dy == 0 || cmd.dx == 0) && -1 <= cmd.dy <= 1 && -1 <= cmd.dx <= 1 && cmd.dy != cmd.dx
    ensures cmd == CycleMark <==> ch == ' ' as int
    ensures cmd == Uncover <==> ch == '\n' as int
    ensures ch == ERR ==> cmd == Ignore
  {
    if IsUp(ch) then Step(-1, 0)
    else if IsRight(ch) then Step(0, 1)
    else if IsLeft(ch) then Step(0, -1)
    else if IsDown(ch) then Step(1, 0)
    else if ch == ' ' as int then CycleMark
    else if ch == '\n' as int then Uncover
    else Ignore
  }

  /** The arrow keys and both letter cases of W, A, S, D all steer the same way. */
  lemma KeysAgree()
    ensures Decode(KEY_UP) == Decode('W' as int) == Decode('w' as int) == Step(-1, 0)
    ensures Decode(KEY_RIGHT) == Decode('D' as int) == Decode('d' as int) == Step(0, 1)
    ensures Decode(KEY_LEFT) == Decode('A' as int) == Decode('a' as int) == Step(0, -1)
    ensures Decode(KEY_DOWN) == Decode('S' as int) == Decode('s' as int) == Step(1, 0)
  {
  }
}
