/**
 * The input module (Input.cpp): per-frame key and mouse-button states, and
 * the event queue of one frame. SDL's keyboard snapshot and event queue are
 * inputs; the window, renderer and GUI calls a few events make are not part
 * of this model. The sizes MAX_KEYS and NUM_MOUSE_BUTTONS come from a header
 * that is not part of this model, so they are constructor parameters.
 */
module Input {
  import opened Common
  import opened Strings
  import opened FileSystem

  datatype KeyState = Idle | Down | Repeat | Up

  /** The key is held during the frame just read. */
  predicate IsHeld(s: KeyState)
  {
    s == Down || s == Repeat
  }

  /**
   * One frame of a keyboard key: pressed goes Idle to Down and anything
   * else to Repeat; released goes Down or Repeat to Up and anything else to
   * Idle. The new state says whether the key was pressed in that frame, and
   * it reports an edge exactly when the press status changed.
   */
  function KeyStep(s: KeyState, pressed: bool): (r: KeyState)
    ensures IsHeld(r) == pressed
    ensures r == Down <==> pressed && s == Idle
    ensures r == Up <==> !pressed && IsHeld(s)
  {
    if pressed then (if s == Idle then Down else Repeat)
    else if s == Repeat || s == Down then Up
    else Idle
  }

  /** A key's state after a run of frames, oldest first. */
  function KeyAfter(s: KeyState, presses: seq<bool>): KeyState
  {
    if presses == [] then s else KeyStep(KeyAfter(s, presses[..|presses| - 1]), presses[|presses| - 1])
  }

  /**
   * Starting from Idle, a pressed frame reads Down exactly when it is the
   * first frame, or the two frames before it (as far as they exist) were
   * released: a press in the frame right after a release reads Repeat.
   */
  lemma {:induction false} DownNeedsTwoReleasedFrames(ps: seq<bool>)
    ensures KeyAfter(Idle, ps + [true]) == Down <==>
      (|ps| == 0 || (!ps[|ps| - 1] && (|ps| == 1 || !ps[|ps| - 2])))
  {
    assert (ps + [true])[..|ps|] == ps;
    if |ps| >= 1 {
      var q := ps[..|ps| - 1];
      assert ps == q + [ps[|ps| - 1]];
      assert KeyAfter(Idle, ps) == KeyStep(KeyAfter(Idle, q), ps[|ps| - 1]);
      if |ps| >= 2 {
        var r := q[..|q| - 1];
        assert q == r + [q[|q| - 1]];
        assert KeyAfter(Idle, q) == KeyStep(KeyAfter(Idle, r), q[|q| - 1]);
      } else {
        assert q == [];
      }
    }
  }

  /** The start-of-frame step of a mouse button: Down becomes Repeat, Up becomes Idle; no edge is left and held buttons stay held. */
  function MouseStep(s: KeyState): (r: KeyState)
    ensures r == Repeat || r == Idle
    ensures IsHeld(r) == IsHeld(s)
  {
    match s
    case Down => Repeat
    case Up => Idle
    case Idle => Idle
    case Repeat => Repeat
  }

  /** The start-of-frame step of every mouse button. */
  function MouseFrame(bs: seq<KeyState>): (r: seq<KeyState>)
    ensures |r| == |bs| && forall i :: 0 <= i < |bs| ==> r[i] == MouseStep(bs[i])
  {
    seq(|bs|, i requires 0 <= i < |bs| => MouseStep(bs[i]))
  }

  /** A second start-of-frame step changes nothing. */
  lemma MouseStepIdempotent(s: KeyState)
    ensures MouseStep(MouseStep(s)) == MouseStep(s)
  {
  }

  /** What dropping a file does: a model for .fbx and .obj, a logged notice for images, otherwise an unknown-format notice. */
  datatype DropAction = ModelDrop(path: string) | TextureDrop(path: string) | UnknownDrop(path: string)

  function DropActionFor(path: string): (a: DropAction)
    ensures a.path == path
  {
    DropForExtension(GetFileExtension(path), path)
  }

  /** The dispatch on an already lower-cased extension. */
  function DropForExtension(ext: string, path: string): (a: DropAction)
    ensures a.path == path
    ensures a.ModelDrop? <==> ext == ".fbx" || ext == ".obj"
    ensures a.TextureDrop? <==> ext in {".png", ".jpg", ".jpeg", ".tga"}
  {
    if ext == ".fbx" || ext == ".obj" then ModelDrop(path)
    else if ext == ".png" || ext == ".jpg" || ext == ".jpeg" || ext == ".tga" then TextureDrop(path)
    else UnknownDrop(path)
  }

  /** Lower-casing turns a character into `c` exactly when it was `c`, for a `c` that is not a letter. */
  lemma LowerCharKeeps(s: string, c: char)
    requires !('A' <= c <= 'Z') && !('a' <= c <= 'z')
    ensures forall i :: 0 <= i < |s| ==> (ToLower(s)[i] == c <==> s[i] == c)
  {
  }

  /** The position of a character that lower-casing cannot produce or remove is the same in the lower-cased text. */
  lemma LastIndexOfLower(s: string, c: char)
    requires !('A' <= c <= 'Z') && !('a' <= c <= 'z')
    ensures LastIndexOf(ToLower(s), c) == LastIndexOf(s, c)
  {
    var t := ToLower(s);
    LowerCharKeeps(s, c);
    var k, m := LastIndexOf(s, c), LastIndexOf(t, c);
    if k == -1 {
      assert forall i :: 0 <= i < |t| ==> t[i] != c;
    } else {
      assert t[k] == c;
      assert 0 <= m ==> s[m] == c;
    }
  }

  /** Lower-casing commutes with dropping a prefix. */
  lemma ToLowerSuffix(s: string, i: nat)
    requires i <= |s|
    ensures ToLower(s)[i..] == ToLower(s[i..])
  {
    assert forall k :: 0 <= k < |s| - i ==> ToLower(s)[i..][k] == LowerChar(s[i + k]);
  }

  /** Lower-casing a path lower-cases its last component. */
  lemma FileNameOfLower(path: string)
    ensures FileNameOf(ToLower(path)) == ToLower(FileNameOf(path))
  {
    LastIndexOfLower(path, '/');
    ToLowerSuffix(path, LastIndexOf(path, '/') + 1);
  }

  /** A name is one of the special names "." and ".." exactly when its lower-cased form is. */
  lemma DotNamesLower(name: string)
    ensures (name == "." || name == "..") <==> (ToLower(name) == "." || ToLower(name) == "..")
  {
    var t := ToLower(name);
    LowerCharKeeps(name, '.');
    assert name == "." <==> |name| == 1 && name[0] == '.';
    assert t == "." <==> |t| == 1 && t[0] == '.';
    assert name == ".." <==> |name| == 2 && name[0] == '.' && name[1] == '.';
    assert t == ".." <==> |t| == 2 && t[0] == '.' && t[1] == '.';
  }

  /** Lower-casing a file name keeps the position of its extension's dot. */
  lemma ExtensionDotLower(name: string)
    ensures ExtensionDot(ToLower(name)) == ExtensionDot(name)
  {
    LastIndexOfLower(name, '.');
    DotNamesLower(name);
  }

  /** Lower-casing a path lower-cases its extension. */
  lemma ExtensionOfLower(path: string)
    ensures ExtensionOf(ToLower(path)) == ToLower(ExtensionOf(path))
  {
    FileNameOfLower(path);
    var name := FileNameOf(path);
    ExtensionDotLower(name);
    var d := ExtensionDot(name);
    if d >= 0 {
      ToLowerSuffix(name, d);
    }
  }

  /** The lower-cased extension does not depend on the case of the path. */
  lemma GetFileExtensionLower(path: string)
    ensures GetFileExtension(ToLower(path)) == GetFileExtension(path)
  {
    ExtensionOfLower(path);
    ToLowerIdempotent(ExtensionOf(path));
  }

  /** The dispatch on a dropped file ignores the case of the path. */
  lemma DropIgnoresCase(path: string)
    ensures DropActionFor(ToLower(path)) == DropActionFor(path).(path := ToLower(path))
  {
    GetFileExtensionLower(path);
  }

  /** The SDL events the module reacts to; the rest are Other. */
  datatype Event =
    | Quit
    | WindowResized(width: int, height: int)
    | MouseButtonDown(button: int)
    | MouseButtonUp(button: int)
    | MouseMotion(xrel: int, yrel: int, x: int, y: int)
    | DropFile(file: Option<string>)
    | Other

  /** The button index of a button event lies within the button array (SDL numbers buttons from 1). */
  predicate ButtonInRange(e: Event, buttons: nat)
  {
    (e.MouseButtonDown? ==> 1 <= e.button <= buttons) && (e.MouseButtonUp? ==> 1 <= e.button <= buttons)
  }

  /** What the event loop updates. */
  datatype EventState = EventState(buttons: seq<KeyState>, quit: bool, x: int, y: int, motionX: int, motionY: int, drops: seq<DropAction>)

  /** One event: quit sets the quit flag; a button event sets index button-1; motion records position and movement; a dropped file is dispatched. */
  function ApplyEvent(st: EventState, e: Event): (r: EventState)
    requires ButtonInRange(e, |st.buttons|)
    ensures |r.buttons| == |st.buttons|
  {
    match e
    case Quit => st.(quit := true)
    case WindowResized(_, _) => st
    case MouseButtonDown(b) => st.(buttons := st.buttons[b - 1 := Down])
    case MouseButtonUp(b) => st.(buttons := st.buttons[b - 1 := Up])
    case MouseMotion(dx, dy, x, y) => st.(motionX := dx, motionY := dy, x := x, y := y)
    case DropFile(f) => if f.None? then st else st.(drops := st.drops + [DropActionFor(f.value)])
    case Other => st
  }

  /** The events of a frame, in queue order. */
  function ApplyEvents(st: EventState, es: seq<Event>): (r: EventState)
    requires forall i :: 0 <= i < |es| ==> ButtonInRange(es[i], |st.buttons|)
    ensures |r.buttons| == |st.buttons|
  {
    if es == [] then st else ApplyEvent(ApplyEvents(st, es[..|es| - 1]), es[|es| - 1])
  }

  /** The quit flag, once set, stays set, and it is set exactly when it was or a quit event arrived. */
  lemma {:induction false} ApplyEventsQuit(st: EventState, es: seq<Event>)
    requires forall i :: 0 <= i < |es| ==> ButtonInRange(es[i], |st.buttons|)
    ensures ApplyEvents(st, es).quit <==> st.quit || exists i :: 0 <= i < |es| && es[i].Quit?
  {
    if es != [] {
      var pre := es[..|es| - 1];
      ApplyEventsQuit(st, pre);
      if exists i :: 0 <= i < |pre| && pre[i].Quit? {
        var i :| 0 <= i < |pre| && pre[i].Quit?;
        assert es[i].Quit?;
      }
    }
  }

  /** A button no event names keeps the state the start-of-frame step gave it. */
  lemma {:induction false} ApplyEventsUntouched(st: EventState, es: seq<Event>, k: nat)
    requires forall i :: 0 <= i < |es| ==> ButtonInRange(es[i], |st.buttons|)
    requires k < |st.buttons|
    requires forall i :: 0 <= i < |es| ==> !(es[i].MouseButtonDown? || es[i].MouseButtonUp?) || es[i].button != k + 1
    ensures ApplyEvents(st, es).buttons[k] == st.buttons[k]
  {
    if es != [] {
      ApplyEventsUntouched(st, es[..|es| - 1], k);
    }
  }

  /** The last button event for a button decides its state. */
  lemma {:induction false} ApplyEventsLastButtonEvent(st: EventState, es: seq<Event>, j: nat)
    requires forall i :: 0 <= i < |es| ==> ButtonInRange(es[i], |st.buttons|)
    requires j < |es| && (es[j].MouseButtonDown? || es[j].MouseButtonUp?)
    requires forall i :: j < i < |es| ==> !(es[i].MouseButtonDown? || es[i].MouseButtonUp?) || es[i].button != es[j].button
    ensures ApplyEvents(st, es).buttons[es[j].button - 1] == if es[j].MouseButtonDown? then Down else Up
    decreases |es|
  {
    var pre, e := es[..|es| - 1], es[|es| - 1];
    var k := es[j].button - 1;
    assert ApplyEvents(st, es) == ApplyEvent(ApplyEvents(st, pre), e);
    ApplyEventButton(ApplyEvents(st, pre), e, k);
    if j < |es| - 1 {
      ApplyEventsLastButtonEvent(st, pre, j);
    }
  }

  /** One event changes button k only when it is a button event for k. */
  lemma ApplyEventButton(st: EventState, e: Event, k: nat)
    requires ButtonInRange(e, |st.buttons|) && k < |st.buttons|
    ensures ApplyEvent(st, e).buttons[k]
      == if (e.MouseButtonDown? || e.MouseButtonUp?) && e.button == k + 1 then (if e.MouseButtonDown? then Down else Up) else st.buttons[k]
  {
  }

  /** The action one event adds: one for a dropped file, none otherwise. */
  function DropOf(e: Event): seq<DropAction>
  {
    if e.DropFile? && e.file.Some? then [DropActionFor(e.file.value)] else []
  }

  /** The actions of the frame's dropped files, in queue order. */
  function DroppedActions(es: seq<Event>): seq<DropAction>
  {
    if es == [] then [] else DroppedActions(es[..|es| - 1]) + DropOf(es[|es| - 1])
  }

  /** One event appends its own action to the drops and nothing else. */
  lemma ApplyEventDrops(st: EventState, e: Event)
    requires ButtonInRange(e, |st.buttons|)
    ensures ApplyEvent(st, e).drops == st.drops + DropOf(e)
  {
  }

  /** The event loop appends one action per dropped file and never removes one. */
  lemma {:induction false} ApplyEventsDrops(st: EventState, es: seq<Event>)
    requires forall i :: 0 <= i < |es| ==> ButtonInRange(es[i], |st.buttons|)
    ensures ApplyEvents(st, es).drops == st.drops + DroppedActions(es)
  {
    if es != [] {
      var pre, e := es[..|es| - 1], es[|es| - 1];
      ApplyEventsDrops(st, pre);
      var mid := ApplyEvents(st, pre);
      ApplyEventDrops(mid, e);
      assert ApplyEvents(st, es) == ApplyEvent(mid, e);
      assert DroppedActions(es) == DroppedActions(pre) + DropOf(e);
      assert st.drops + DroppedActions(pre) + DropOf(e) == st.drops + (DroppedActions(pre) + DropOf(e));
    }
  }

  class Input {
    const keyboard: array<KeyState>
    const mouseButtons: array<KeyState>
    var quit: bool
    var mouseX: int
    var mouseY: int
    var mouseMotionX: int
    var mouseMotionY: int
    var drops: seq<DropAction>

    ghost predicate Valid()
      reads this
    {
      keyboard != mouseButtons
    }

    /** Input(): every key and every mouse button Idle. */
    constructor(maxKeys: nat, numMouseButtons: nat)
      ensures Valid() && fresh(keyboard) && fresh(mouseButtons)
      ensures keyboard.Length == maxKeys && mouseButtons.Length == numMouseButtons
      ensures forall i :: 0 <= i < maxKeys ==> keyboard[i] == Idle
      ensures forall i :: 0 <= i < numMouseButtons ==> mouseButtons[i] == Idle
      ensures !quit && drops == []
    {
      keyboard := new KeyState[maxKeys](_ => Idle);
      mouseButtons := new KeyState[numMouseButtons](_ => Idle);
      quit := false;
      mouseX, mouseY, mouseMotionX, mouseMotionY := 0, 0, 0, 0;
      drops := [];
    }

    function State(): EventState
      reads this, mouseButtons
    {
      EventState(mouseButtons[..], quit, mouseX, mouseY, mouseMotionX, mouseMotionY, drops)
    }

    /**
     * Input::PreUpdate: every key steps by the snapshot (1 is pressed),
     * every mouse button takes its start-of-frame step, then the frame's
     * events are handled in order.
     */
    method PreUpdate(keys: seq<byte>, events: seq<Event>) returns (ok: bool)
      requires Valid() && |keys| >= keyboard.Length
      requires forall i :: 0 <= i < |events| ==> ButtonInRange(events[i], mouseButtons.Length)
      modifies keyboard, mouseButtons, this`quit, this`mouseX, this`mouseY, this`mouseMotionX, this`mouseMotionY, this`drops
      ensures ok
      ensures forall i :: 0 <= i < keyboard.Length ==> keyboard[i] == KeyStep(old(keyboard[i]), keys[i] == 1)
      ensures State() == ApplyEvents(old(State()).(buttons := MouseFrame(old(mouseButtons[..]))), events)
    {
      var i := 0;
      while i < keyboard.Length
        invariant 0 <= i <= keyboard.Length
        invariant forall k :: 0 <= k < i ==> keyboard[k] == KeyStep(old(keyboard[k]), keys[k] == 1)
        invariant forall k :: i <= k < keyboard.Length ==> keyboard[k] == old(keyboard[k])
        modifies keyboard
      {
        keyboard[i] := KeyStep(keyboard[i], keys[i] == 1);
        i := i + 1;
      }
      i := 0;
      while i < mouseButtons.Length
        invariant 0 <= i <= mouseButtons.Length
        invariant forall k :: 0 <= k < i ==> mouseButtons[k] == MouseStep(old(mouseButtons[k]))
        invariant forall k :: i <= k < mouseButtons.Length ==> mouseButtons[k] == old(mouseButtons[k])
        modifies mouseButtons
      {
        if mouseButtons[i] == Down {
          mouseButtons[i] := Repeat;
        }
        if mouseButtons[i] == Up {
          mouseButtons[i] := Idle;
        }
        i := i + 1;
      }
      assert mouseButtons[..] == MouseFrame(old(mouseButtons[..]));
      ghost var start := State();
      assert start == old(State()).(buttons := MouseFrame(old(mouseButtons[..])));
      i := 0;
      while i < |events|
        invariant 0 <= i <= |events|
        invariant State() == ApplyEvents(start, events[..i])
        modifies mouseButtons, this`quit, this`mouseX, this`mouseY, this`mouseMotionX, this`mouseMotionY, this`drops
      {
        assert events[..i + 1][..i] == events[..i];
        HandleEvent(events[i]);
        i := i + 1;
      }
      assert events[..|events|] == events;
      ok := true;
    }

    /** One pass of the event loop. */
    method HandleEvent(e: Event)
      requires ButtonInRange(e, mouseButtons.Length)
      modifies mouseButtons, this`quit, this`mouseX, this`mouseY, this`mouseMotionX, this`mouseMotionY, this`drops
      ensures State() == ApplyEvent(old(State()), e)
    {
      match e
      case Quit =>
        quit := true;
      case WindowResized(_, _) =>
      case MouseButtonDown(b) =>
        mouseButtons[b - 1] := Down;
      case MouseButtonUp(b) =>
        mouseButtons[b - 1] := Up;
      case MouseMotion(dx, dy, x, y) =>
        mouseMotionX, mouseMotionY := dx, dy;
        mouseX, mouseY := x, y;
      case DropFile(f) =>
        if f.Some? {
          drops := drops + [DropActionFor(f.value)];
        }
      case Other =>
    }
  }
}
