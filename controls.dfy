/**
 * The input action state machine: per action, `held` follows the key, while
 * `pressed` and `released` record the down and up edges seen since the
 * start of the frame.
 */
module Controls {

  datatype Action =
    | MoveForward | MoveBackward | MoveLeft | MoveRight | MoveUp | MoveDown
    | YawLeft | YawRight | PitchUp | PitchDown
    | Shader1 | Shader2 | Shader3 | Shader4 | Shader5
    | ToggleRings | ToggleMoon | PauseRotation
    | ParamInc | ParamDec
    | Screenshot | Quit

  datatype ActionState = ActionState(held: bool, pressed: bool, released: bool)

  /** The state of an action never recorded. */
  const Idle := ActionState(false, false, false)

  type Table = map<Action, ActionState>

  function Entry(m: Table, a: Action): ActionState
  {
    if a in m then m[a] else Idle
  }

  predicate Held(m: Table, a: Action) { Entry(m, a).held }
  predicate Pressed(m: Table, a: Action) { Entry(m, a).pressed }
  predicate Released(m: Table, a: Action) { Entry(m, a).released }

  /** `action_down`: the entry is created if absent; a non-held action becomes held and pressed. */
  function Down(m: Table, a: Action): Table
  {
    var st := Entry(m, a);
    m[a := if st.held then st else st.(held := true, pressed := true)]
  }

  /** `action_up`: the entry is created if absent; a held action stops being held and is released. */
  function Up(m: Table, a: Action): Table
  {
    var st := Entry(m, a);
    m[a := if st.held then st.(held := false, released := true) else st]
  }

  /** `begin_frame`: every recorded action loses its edge flags. */
  function Cleared(m: Table): Table
  {
    map b | b in m :: m[b].(pressed := false, released := false)
  }

  // ---------------------------------------------------------------------------
  // One event at a time
  // ---------------------------------------------------------------------------

  /** A down on an idle or released action holds and presses it; the release flag is kept. */
  lemma DownPresses(m: Table, a: Action)
    requires !Held(m, a)
    ensures Held(Down(m, a), a) && Pressed(Down(m, a), a)
    ensures Released(Down(m, a), a) == Released(m, a)
  {
  }

  /** Key repeat: a down on an action already held changes none of its flags. */
  lemma DownRepeatIgnored(m: Table, a: Action)
    requires Held(m, a)
    ensures Entry(Down(m, a), a) == Entry(m, a)
  {
  }

  /** An up on a held action releases it; the pressed flag is kept. */
  lemma UpReleases(m: Table, a: Action)
    requires Held(m, a)
    ensures !Held(Up(m, a), a) && Released(Up(m, a), a)
    ensures Pressed(Up(m, a), a) == Pressed(m, a)
  {
  }

  /** An up on an action not held changes none of its flags. */
  lemma UpWhenNotHeldIgnored(m: Table, a: Action)
    requires !Held(m, a)
    ensures Entry(Up(m, a), a) == Entry(m, a)
  {
  }

  /** Events touch only the named action's entry. */
  lemma EventsTouchOnlyTheirAction(m: Table, a: Action, b: Action)
    requires a != b
    ensures Entry(Down(m, a), b) == Entry(m, b) && Entry(Up(m, a), b) == Entry(m, b)
    ensures b in Down(m, a) <==> b in m
    ensures b in Up(m, a) <==> b in m
  {
  }

  /** The frame reset clears both edge flags of every action and keeps every held flag. */
  lemma ClearedResetsEdges(m: Table, a: Action)
    ensures !Pressed(Cleared(m), a) && !Released(Cleared(m), a)
    ensures Held(Cleared(m), a) == Held(m, a)
  {
  }

  /** An action never recorded reads as not held, not pressed and not released. */
  lemma UnrecordedIsIdle(m: Table, a: Action)
    requires a !in m
    ensures !Held(m, a) && !Pressed(m, a) && !Released(m, a)
  {
  }

  // ---------------------------------------------------------------------------
  // Sequences of events
  // ---------------------------------------------------------------------------

  datatype Event = KeyDown(a: Action) | KeyUp(a: Action) | NewFrame

  function Apply(m: Table, e: Event): Table
  {
    match e
    case KeyDown(a) => Down(m, a)
    case KeyUp(a) => Up(m, a)
    case NewFrame => Cleared(m)
  }

  /** The table after the events, applied in order. */
  function Run(m: Table, evs: seq<Event>): Table
  {
    if |evs| == 0 then m else Apply(Run(m, evs[..|evs| - 1]), evs[|evs| - 1])
  }

  /**
   * The flag combinations the machine can reach: an edge flag set without
   * the matching change of `held` is never seen, so pressed and not held
   * means it was released since, and released and held means it was
   * pressed since.
   */
  predicate Coherent(st: ActionState)
  {
    (st.pressed && !st.held ==> st.released) && (st.released && st.held ==> st.pressed)
  }

  predicate Consistent(m: Table)
  {
    forall b :: b in m ==> Coherent(m[b])
  }

  lemma ApplyKeepsConsistent(m: Table, e: Event)
    requires Consistent(m)
    ensures Consistent(Apply(m, e))
  {
    match e
    case KeyDown(a) =>
      assert Coherent(Entry(m, a));
    case KeyUp(a) =>
      assert Coherent(Entry(m, a));
    case NewFrame =>
  }

  /** From a coherent table (the empty one included), any sequence of events reaches only coherent states. */
  lemma {:induction false} RunConsistent(m: Table, evs: seq<Event>)
    requires Consistent(m)
    ensures Consistent(Run(m, evs))
  {
    if |evs| > 0 {
      RunConsistent(m, evs[..|evs| - 1]);
      ApplyKeepsConsistent(Run(m, evs[..|evs| - 1]), evs[|evs| - 1]);
    }
  }

  /** Within a frame, an action is pressed only if a down event for it arrived. */
  lemma {:induction false} PressedNeedsDown(m: Table, evs: seq<Event>, a: Action)
    requires !Pressed(m, a)
    requires forall k :: 0 <= k < |evs| ==> evs[k] != KeyDown(a)
    ensures !Pressed(Run(m, evs), a)
  {
    if |evs| > 0 {
      PressedNeedsDown(m, evs[..|evs| - 1], a);
    }
  }

  /** Within a frame, an action is released only if an up event for it arrived. */
  lemma {:induction false} ReleasedNeedsUp(m: Table, evs: seq<Event>, a: Action)
    requires !Released(m, a)
    requires forall k :: 0 <= k < |evs| ==> evs[k] != KeyUp(a)
    ensures !Released(Run(m, evs), a)
  {
    if |evs| > 0 {
      ReleasedNeedsUp(m, evs[..|evs| - 1], a);
    }
  }

  /** `held` follows the last down or up event for the action. */
  lemma {:induction false} HeldFollowsLastEvent(m: Table, evs: seq<Event>, a: Action, k: nat)
    requires k < |evs| && (evs[k] == KeyDown(a) || evs[k] == KeyUp(a))
    requires forall j :: k < j < |evs| ==> evs[j] != KeyDown(a) && evs[j] != KeyUp(a)
    ensures Held(Run(m, evs), a) <==> evs[k] == KeyDown(a)
    decreases |evs|
  {
    var prefix := evs[..|evs| - 1];
    if k < |evs| - 1 {
      HeldFollowsLastEvent(m, prefix, a, k);
      match evs[|evs| - 1]
      case KeyDown(b) =>
      case KeyUp(b) =>
      case NewFrame =>
    }
  }

  // ---------------------------------------------------------------------------
  // The stateful object
  // ---------------------------------------------------------------------------

  /** `Input`: the action table, updated in place by the event handlers. */
  class Input {
    var table: Table

    constructor ()
      ensures table == map[]
    {
      table := map[];
    }

    method ActionDown(a: Action)
      modifies this
      ensures table == Down(old(table), a)
    {
      var st := if a in table then table[a] else Idle;
      if !st.held {
        st := st.(held := true, pressed := true);
      }
      table := table[a := st];
    }

    method ActionUp(a: Action)
      modifies this
      ensures table == Up(old(table), a)
    {
      var st := if a in table then table[a] else Idle;
      if st.held {
        st := st.(held := false, released := true);
      }
      table := table[a := st];
    }

    /** Resets the edge flags entry by entry. */
    method BeginFrame()
      modifies this
      ensures table == Cleared(old(table))
    {
      var todo := table.Keys;
      while todo != {}
        invariant todo <= old(table).Keys && table.Keys == old(table).Keys
        invariant forall b :: b in table ==>
          table[b] == if b in todo then old(table)[b] else old(table)[b].(pressed := false, released := false)
        decreases todo
      {
        var b :| b in todo;
        table := table[b := table[b].(pressed := false, released := false)];
        todo := todo - {b};
      }
    }

    /** Held, pressed and released read as false unless the action is recorded with the flag set. */
    function IsHeld(a: Action): (r: bool)
      reads this
      ensures r <==> a in table && table[a].held
    {
      Held(table, a)
    }

    function IsPressed(a: Action): (r: bool)
      reads this
      ensures r <==> a in table && table[a].pressed
    {
      Pressed(table, a)
    }

    function IsReleased(a: Action): (r: bool)
      reads this
      ensures r <==> a in table && table[a].released
    {
      Released(table, a)
    }
  }
}
