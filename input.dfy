/** The key-state table of `input.rs`: a map from `Key` to an `InputState`
    that the keyboard/mouse hook writes and the frame loop reads and clears. */
module Input {
  import opened Wrappers

  /** The keys the hook tracks. */
  datatype Key =
    | MouseLeft | Windows | Backspace | ArrowDown | ArrowUp | Enter
    | A | B | C | D | E | F | G | H | I | J | K | L | M | N | O | P | Q | R | S | T | U | V | W | X | Y | Z

  /** `Key::as_str`. The three keys it has no name for make it `panic!`,
      which is `None` here. */
  function AsStr(k: Key): (r: Option<string>)
    ensures r.None? <==> k == Enter || k == ArrowUp || k == ArrowDown
    ensures k == MouseLeft ==> r == Some("MouseLeft")
    ensures k == Windows ==> r == Some("Windows")
    ensures k == Backspace ==> r == Some("Backspace")
    ensures IsLetter(k) ==> r.Some? && |r.value| == 1 && 'a' <= r.value[0] <= 'z'
  {
    match k
      case MouseLeft => Some("MouseLeft")
      case Windows => Some("Windows")
      case Backspace => Some("Backspace")
      case A => Some("a")
      case B => Some("b")
      case C => Some("c")
      case D => Some("d")
      case E => Some("e")
      case F => Some("f")
      case G => Some("g")
      case H => Some("h")
      case I => Some("i")
      case J => Some("j")
      case K => Some("k")
      case L => Some("l")
      case M => Some("m")
      case N => Some("n")
      case O => Some("o")
      case P => Some("p")
      case Q => Some("q")
      case R => Some("r")
      case S => Some("s")
      case T => Some("t")
      case U => Some("u")
      case V => Some("v")
      case W => Some("w")
      case X => Some("x")
      case Y => Some("y")
      case Z => Some("z")
      case _ => None
  }

  predicate IsLetter(k: Key)
  {
    !(k == MouseLeft || k == Windows || k == Backspace || k == ArrowDown || k == ArrowUp || k == Enter)
  }

  /** The letter keys as the hook reports them: a letter key's virtual-key
      code is its upper-case ASCII letter. */
  function LetterKey(c: char): (r: Option<Key>)
  {
    match c
      case 'A' => Some(A)
      case 'B' => Some(B)
      case 'C' => Some(C)
      case 'D' => Some(D)
      case 'E' => Some(E)
      case 'F' => Some(F)
      case 'G' => Some(G)
      case 'H' => Some(H)
      case 'I' => Some(I)
      case 'J' => Some(J)
      case 'K' => Some(K)
      case 'L' => Some(L)
      case 'M' => Some(M)
      case 'N' => Some(N)
      case 'O' => Some(O)
      case 'P' => Some(P)
      case 'Q' => Some(Q)
      case 'R' => Some(R)
      case 'S' => Some(S)
      case 'T' => Some(T)
      case 'U' => Some(U)
      case 'V' => Some(V)
      case 'W' => Some(W)
      case 'X' => Some(X)
      case 'Y' => Some(Y)
      case 'Z' => Some(Z)
      case _ => None
  }

  /** The upper-case form of a lower-case ASCII letter. */
  function Upper(c: char): (r: char)
    requires 'a' <= c <= 'z'
    ensures 'A' <= r <= 'Z' && r as int == c as int - 32
  {
    (c as int - 32) as char
  }

  /** Every letter key is reached by the upper case of its own name. */
  lemma LetterKeysReached(k: Key)
    requires IsLetter(k)
    ensures AsStr(k).Some? && |AsStr(k).value| == 1
    ensures LetterKey(Upper(AsStr(k).value[0])) == Some(k)
  {
    match k
      case A => case B => case C => case D => case E => case F => case G =>
      case H => case I => case J => case K => case L => case M => case N =>
      case O => case P => case Q => case R => case S => case T => case U =>
      case V => case W => case X => case Y => case Z =>
  }

  /** `InputState`: whether the key is held and whether that changed since it
      was last read. */
  datatype InputState = InputState(active: bool, justChanged: bool)

  /** `InputState::default()`. */
  const DEFAULT_STATE := InputState(false, false)


  /** Every key has an entry: what makes the `expect` in `get_input` safe. */
  ghost predicate Complete(keys: map<Key, InputState>)
  {
    forall k: Key :: k in keys
  }

  /** The map `KeyboardMouseState::new` builds, inserting the keys in this
      order. */
  function InitialKeys(): map<Key, InputState>
  {
    map[
      MouseLeft := DEFAULT_STATE,
      Windows := DEFAULT_STATE,
      Backspace := DEFAULT_STATE,
      Enter := DEFAULT_STATE,
      ArrowUp := DEFAULT_STATE,
      ArrowDown := DEFAULT_STATE,
      A := DEFAULT_STATE,
      B := DEFAULT_STATE,
      C := DEFAULT_STATE,
      D := DEFAULT_STATE,
      E := DEFAULT_STATE,
      F := DEFAULT_STATE,
      G := DEFAULT_STATE,
      H := DEFAULT_STATE,
      I := DEFAULT_STATE,
      J := DEFAULT_STATE,
      K := DEFAULT_STATE,
      L := DEFAULT_STATE,
      M := DEFAULT_STATE,
      N := DEFAULT_STATE,
      O := DEFAULT_STATE,
      P := DEFAULT_STATE,
      Q := DEFAULT_STATE,
      R := DEFAULT_STATE,
      S := DEFAULT_STATE,
      T := DEFAULT_STATE,
      U := DEFAULT_STATE,
      V := DEFAULT_STATE,
      W := DEFAULT_STATE,
      X := DEFAULT_STATE,
      Y := DEFAULT_STATE,
      Z := DEFAULT_STATE
    ]
  }

  /** `new` inserts all 32 `Key` variants, none held and none changed, so the
      `expect` in `get_input` cannot fail. */
  lemma InitialKeysComplete()
    ensures Complete(InitialKeys())
    ensures forall k :: InitialKeys()[k] == DEFAULT_STATE
  {
    forall k: Key
      ensures k in InitialKeys() && InitialKeys()[k] == DEFAULT_STATE
    {
      match k
      case MouseLeft =>
      case Windows =>
      case Backspace =>
      case Enter =>
      case ArrowUp =>
      case ArrowDown =>
      case A =>
      case B =>
      case C =>
      case D =>
      case E =>
      case F =>
      case G =>
      case H =>
      case I =>
      case J =>
      case K =>
      case L =>
      case M =>
      case N =>
      case O =>
      case P =>
      case Q =>
      case R =>
      case S =>
      case T =>
      case U =>
      case V =>
      case W =>
      case X =>
      case Y =>
      case Z =>
    }
  }

  /** The hook's `KeyPress` / `MouseButtonPress` (their payloads play no role). */
  datatype Press = Down | Up | OtherPress

  /** `keyboard_press`: a Down or Up event overwrites the key's entry with
      "changed, now held" or "changed, now released"; anything else is ignored.
      No other key is touched. */
  function Pressed(keys: map<Key, InputState>, key: Key, press: Press): (r: map<Key, InputState>)
    ensures press == Down ==> key in r && r[key] == InputState(true, true)
    ensures press == Up ==> key in r && r[key] == InputState(false, true)
    ensures press == OtherPress ==> r == keys
    ensures forall k :: k != key ==> (k in r <==> k in keys)
    ensures forall k :: k != key && k in keys ==> r[k] == keys[k]
    ensures Complete(keys) ==> Complete(r)
  {
    match press
    case Down => keys[key := InputState(true, true)]
    case Up => keys[key := InputState(false, true)]
    case OtherPress => keys
  }

  /** The keyboard keys the hook distinguishes. */
  datatype KeyboardKey =
    | LeftWindows | RightWindows | EnterKey | ArrowUpKey | ArrowDownKey | BackSpaceKey
    | Character(code: char)   // letters arrive as their upper-case virtual-key code
    | OtherKey(scanCode: int)

  datatype MouseButton = Left | Right | Middle | X1 | X2 | UnknownX | OtherButton

  datatype MouseEventType = MousePress(pressed: Press, button: MouseButton) | Move | Wheel | OtherMouse

  /** `willhook::InputEvent`, with the fields the hook loop inspects. */
  datatype InputEvent =
    | Keyboard(pressed: Press, key: Option<KeyboardKey>)
    | Mouse(event: MouseEventType)
    | OtherEvent

  /** The keyboard half of the hook's dispatch table: which tracked key an
      OS key stands for. */
  function KeyFor(kk: KeyboardKey): (r: Option<Key>)
    ensures kk == LeftWindows || kk == RightWindows ==> r == Some(Windows)
    ensures r.Some? && r.value == Windows ==> kk == LeftWindows || kk == RightWindows
    ensures kk.OtherKey? ==> r.None?
    ensures kk == EnterKey <==> r == Some(Enter)
    ensures kk == ArrowUpKey <==> r == Some(ArrowUp)
    ensures kk == ArrowDownKey <==> r == Some(ArrowDown)
    ensures kk == BackSpaceKey <==> r == Some(Backspace)
  {
    match kk
    case LeftWindows => Some(Windows)
    case RightWindows => Some(Windows)
    case EnterKey => Some(Enter)
    case ArrowUpKey => Some(ArrowUp)
    case ArrowDownKey => Some(ArrowDown)
    case BackSpaceKey => Some(Backspace)
    case Character(c) => LetterKey(c)
    case OtherKey(_) => None
  }

  /** What one hook event does to the key map. */
  function HookUpdate(keys: map<Key, InputState>, ev: InputEvent): (r: map<Key, InputState>)
    ensures ev.Keyboard? && ev.key.Some? && KeyFor(ev.key.value).Some? ==>
              r == Pressed(keys, KeyFor(ev.key.value).value, ev.pressed)
    ensures ev.Mouse? && ev.event.MousePress? && ev.event.button == Left ==>
              r == Pressed(keys, MouseLeft, ev.event.pressed)
    ensures ev.OtherEvent? ==> r == keys
    ensures ev.Keyboard? && (ev.key.None? || KeyFor(ev.key.value).None?) ==> r == keys
    ensures ev.Mouse? && !(ev.event.MousePress? && ev.event.button == Left) ==> r == keys
    ensures Complete(keys) ==> Complete(r)
  {
    match ev
    case Keyboard(pressed, key) =>
      if key.Some? && KeyFor(key.value).Some? then Pressed(keys, KeyFor(key.value).value, pressed) else keys
    case Mouse(MousePress(pressed, Left)) =>
      (match pressed
       case Down => keys[MouseLeft := InputState(true, true)]
       case Up => keys[MouseLeft := InputState(false, true)]
       case OtherPress => keys)
    case Mouse(_) => keys
    case OtherEvent => keys
  }

  /** `KeyboardMouseState`: the table shared between the hook thread and the
      frame loop. The hook thread itself is not modelled; `OnEvent` is one
      iteration of its loop. */
  class KeyboardMouseState {
    var keys: map<Key, InputState>

    ghost predicate Valid()
      reads this
    {
      Complete(keys)
    }

    /** `KeyboardMouseState::new`: every key present, none held or changed. */
    constructor ()
      ensures Valid()
      ensures keys == InitialKeys()
    {
      InitialKeysComplete();
      keys := InitialKeys();
    }

    /** `keyboard_press` applied to the shared table. */
    method KeyboardPress(key: Key, press: Press)
      requires Valid()
      modifies this
      ensures Valid()
      ensures keys == Pressed(old(keys), key, press)
    {
      if press == Down {
        keys := keys[key := InputState(true, true)];
      } else if press == Up {
        keys := keys[key := InputState(false, true)];
      }
    }

    /** One event received by the hook thread. */
    method OnEvent(ev: InputEvent)
      requires Valid()
      modifies this
      ensures Valid()
      ensures keys == HookUpdate(old(keys), ev)
    {
      match ev {
        case Keyboard(pressed, key) =>
          if key.Some? {
            var k := KeyFor(key.value);
            if k.Some? {
              KeyboardPress(k.value, pressed);
            }
          }
        case Mouse(MousePress(pressed, Left)) =>
          match pressed {
            case Down => keys := keys[MouseLeft := InputState(true, true)];
            case Up => keys := keys[MouseLeft := InputState(false, true)];
            case OtherPress =>
          }
        case Mouse(_) =>
        case OtherEvent =>
      }
    }

    /** `get_input`: returns the key's state as it was and then marks it as
        seen, so the next read reports no change until the hook writes again.
        The entry always exists. */
    method GetInput(key: Key) returns (s: InputState)
      requires Valid()
      modifies this
      ensures Valid()
      ensures s == old(keys)[key]
      ensures keys == old(keys)[key := InputState(s.active, false)]
      ensures keys[key].active == s.active && !keys[key].justChanged
    {
      s := keys[key];
      if s.justChanged {
        keys := keys[key := keys[key].(justChanged := false)];
      }
    }
  }

  /** Reading a key twice in a row: the second read sees the same `active`
      flag and no change, and leaves the keys as the first read did. */
  method ReadTwice(kb: KeyboardMouseState, key: Key) returns (first: InputState, second: InputState)
    requires kb.Valid()
    modifies kb
    ensures kb.Valid()
    ensures first == old(kb.keys)[key]
    ensures second == InputState(first.active, false)
    ensures kb.keys == old(kb.keys)[key := second]
  {
    first := kb.GetInput(key);
    ghost var afterFirst := kb.keys;
    second := kb.GetInput(key);
    assert kb.keys == afterFirst;
  }
}
