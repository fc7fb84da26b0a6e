/** Keyboard and mouse input of the client (src/client/input_event.rs) and
    the per-frame bit queues both client revisions keep for every control
    (src/client/game_update.rs:153-206, src/client/client_state.rs:126-175).

    A queue is a `u8` history of one control: bit 0 is whether it is held
    now, bit 1 whether it was held one frame ago, and so on. Every frame
    first shifts the history left, copying bit 0 forward, and then lets
    the frame's key events set or clear bit 0. */
module Input {
  import opened Ints
  import opened Wrappers

  datatype KeyState = Up | Down

  datatype InputKey =
    | W | A | S | D | Z
    | Left | Right | Up | Down
    | Space
    | LeftClick | RightClick | MiddleClick
    | MouseButton(button: u8)

  /** `InputEvent`. The cursor position is a pixel offset in the view; the
      source carries it as `f32`. */
  datatype InputEvent =
    | CursorMove(x: nat, y: nat)
    | WindowResize(w: u16, h: u16)
    | Focused(focused: bool)
    | KeyEvent(state: KeyState, key: InputKey)
    | Close

  /** The six controls that own a queue. */
  datatype Control = CursorLeft | CursorRight | MoveUp | MoveDown | MoveLeft | MoveRight

  /** The key that drives each queue: W, A, S, D move the view, the two
      mouse buttons click. Every other key is ignored. */
  function Binding(key: InputKey): (r: Option<Control>)
  {
    match key
    case W => Some(MoveUp)
    case A => Some(MoveLeft)
    case S => Some(MoveDown)
    case D => Some(MoveRight)
    case LeftClick => Some(CursorLeft)
    case RightClick => Some(CursorRight)
    case _ => Option.None
  }

  /** No two keys drive the same control. */
  lemma BindingInjective(k1: InputKey, k2: InputKey)
    requires Binding(k1).Some? && Binding(k1) == Binding(k2)
    ensures k1 == k2
  {
  }

  // ---------------------------------------------------------------------
  // Bit operations on one queue.

  /** `q & 1 | q << 1` on a `u8`: the shift drops bit 7, and the two
      operands share no bit, so the `|` adds them. Bit 0 is kept and every
      other bit takes the value of the bit below it. */
  function Shift(q: u8): (r: u8)
    ensures r % 2 == q % 2
    ensures r / 2 == q % 0x80
  {
    q % 2 + 2 * (q % 0x80)
  }

  /** `q |= 1`: the control is held from now on; history is kept. */
  function Press(q: u8): (r: u8)
    ensures r % 2 == 1 && r / 2 == q / 2
  {
    q - q % 2 + 1
  }

  /** `q &= !1`: the control is released; history is kept. */
  function Release(q: u8): (r: u8)
    ensures r % 2 == 0 && r / 2 == q / 2
  {
    q - q % 2
  }

  /** `q & 1 > 0`: the control is held this frame. */
  predicate Held(q: u8)
  {
    q % 2 == 1
  }

  /** `q & 0b1 == 1 && q & 0b10 == 0`: held now, not held a frame ago. */
  predicate RisingEdge(q: u8)
  {
    q % 2 == 1 && (q / 2) % 2 == 0
  }

  /** A frame without events never produces a rising edge: shifting copies
      the current state into the previous one. */
  lemma {:induction false} NoEdgeWithoutPress(q: u8)
    ensures !RisingEdge(Shift(q))
    ensures Held(Shift(q)) <==> Held(q)
  {
    var r := Shift(q);
    assert (r / 2) % 2 == (q % 0x80) % 2;
    assert (q % 0x80) % 2 == q % 2 by {
      assert q % 0x80 == q - 0x80 * (q / 0x80);
    }
  }

  /** A press after the shift is a rising edge exactly when the control was
      not held in the frame before. */
  lemma {:induction false} PressEdge(q: u8)
    ensures RisingEdge(Press(Shift(q))) <==> !Held(q)
  {
    var r := Press(Shift(q));
    assert r / 2 == q % 0x80;
    assert (q % 0x80) % 2 == q % 2 by {
      assert q % 0x80 == q - 0x80 * (q / 0x80);
    }
  }

  // ---------------------------------------------------------------------
  // The six queues and the cursor.

  datatype Queues = Queues(cursorLeft: u8, cursorRight: u8, up: u8, down: u8, left: u8, right: u8) {

    function Get(c: Control): u8
    {
      match c
      case CursorLeft => cursorLeft
      case CursorRight => cursorRight
      case MoveUp => up
      case MoveDown => down
      case MoveLeft => left
      case MoveRight => right
    }

    /** Replace one queue. */
    function Set(c: Control, q: u8): (r: Queues)
      ensures r.Get(c) == q
      ensures forall c' :: c' != c ==> r.Get(c') == Get(c')
    {
      match c
      case CursorLeft => this.(cursorLeft := q)
      case CursorRight => this.(cursorRight := q)
      case MoveUp => this.(up := q)
      case MoveDown => this.(down := q)
      case MoveLeft => this.(left := q)
      case MoveRight => this.(right := q)
    }

    /** The six shifts at the start of the input phase. */
    function ShiftAll(): (r: Queues)
      ensures forall c :: r.Get(c) % 2 == Get(c) % 2 && r.Get(c) / 2 == Get(c) % 0x80
    {
      Queues(Shift(cursorLeft), Shift(cursorRight), Shift(up), Shift(down), Shift(left), Shift(right))
    }
  }

  /** All queues empty, as both clients start. */
  const NoInput: Queues := Queues(0, 0, 0, 0, 0, 0)

  /** The input half of a client: cursor position and the queues. */
  datatype Pointer = Pointer(cursor: (nat, nat), queues: Queues)

  /** The tile under the cursor for a view at pixel `view`: pixel
      position divided by the tile size of 16. */
  function Target(p: Pointer, view: (nat, nat)): (r: (nat, nat))
    ensures r.0 * 16 <= view.0 + p.cursor.0 < (r.0 + 1) * 16
    ensures r.1 * 16 <= view.1 + p.cursor.1 < (r.1 + 1) * 16
  {
    ((view.0 + p.cursor.0) / 16, (view.1 + p.cursor.1) / 16)
  }

  /** One iteration of the input loop. A key event of a bound key sets or
      clears bit 0 of its queue; a cursor move replaces the position;
      everything else is skipped. */
  function ApplyInput(s: Pointer, e: InputEvent): (r: Pointer)
  {
    match e
    case CursorMove(x, y) => s.(cursor := (x, y))
    case KeyEvent(st, k) =>
      (match Binding(k)
       case Some(c) =>
         var q := s.queues.Get(c);
         s.(queues := s.queues.Set(c, if st == KeyState.Down then Press(q) else Release(q)))
       case None => s)
    case _ => s
  }

  /** The input loop over the frame's events, first to last. */
  function ApplyInputs(s: Pointer, events: seq<InputEvent>): (r: Pointer)
    decreases |events|
  {
    if |events| == 0 then s else ApplyInputs(ApplyInput(s, events[0]), events[1..])
  }

  /** The state of the last key event in `events` that drives control `c`. */
  function LastKey(events: seq<InputEvent>, c: Control): (r: Option<KeyState>)
    decreases |events|
  {
    if |events| == 0 then Option.None
    else
      var e := events[|events| - 1];
      if e.KeyEvent? && Binding(e.key) == Some(c) then Some(e.state)
      else LastKey(events[..|events| - 1], c)
  }

  /** The position of the last cursor move in `events`. */
  function LastCursor(events: seq<InputEvent>): (r: Option<(nat, nat)>)
    decreases |events|
  {
    if |events| == 0 then Option.None
    else
      var e := events[|events| - 1];
      if e.CursorMove? then Some((e.x, e.y)) else LastCursor(events[..|events| - 1])
  }

  /** What the input loop leaves in bit 0 of a queue that held `q` before:
      the state of the last event for the control, or the old bit. */
  function HeldAfter(events: seq<InputEvent>, c: Control, q: u8): nat
  {
    match LastKey(events, c)
    case Some(st) => if st == KeyState.Down then 1 else 0
    case None => q % 2
  }

  /** The input loop is "last event wins": bit 0 of every queue is the state
      of the control's last key event, the history bits are untouched, and
      the cursor sits where it was last moved to. */
  predicate LastWins(s: Pointer, events: seq<InputEvent>, r: Pointer)
  {
    && (forall c :: r.queues.Get(c) / 2 == s.queues.Get(c) / 2)
    && (forall c :: r.queues.Get(c) % 2 == HeldAfter(events, c, s.queues.Get(c)))
    && r.cursor == (match LastCursor(events) case Some(p) => p case None => s.cursor)
  }

  /** Appending one event to the loop applies it to the loop's result. */
  lemma {:induction false} ApplyInputsSnoc(s: Pointer, events: seq<InputEvent>, e: InputEvent)
    ensures ApplyInputs(s, events + [e]) == ApplyInput(ApplyInputs(s, events), e)
    decreases |events|
  {
    if |events| == 0 {
      assert ([] + [e])[1..] == [];
    } else {
      assert (events + [e])[1..] == events[1..] + [e];
      ApplyInputsSnoc(ApplyInput(s, events[0]), events[1..], e);
    }
  }

  /** The loop, which runs first to last, agrees with the last-wins
      reference, which looks from the end. */
  lemma {:induction false} InputsLastWins(s: Pointer, events: seq<InputEvent>)
    ensures LastWins(s, events, ApplyInputs(s, events))
    decreases |events|
  {
    if |events| > 0 {
      var init, e := events[..|events| - 1], events[|events| - 1];
      assert events == init + [e];
      ApplyInputsSnoc(s, init, e);
      InputsLastWins(s, init);
    }
  }
}
