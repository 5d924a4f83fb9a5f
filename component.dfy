/** The component's own state (`Model::create`, `update`, `change`): the
    canvas size, the lattice step and three layer switches that the three
    check boxes flip. The component link of the source is UI plumbing and
    has no counterpart here. */
module Component {

  /** The messages the check boxes send. */
  datatype Msg = ToggleArrows | TogglePaths | ToggleCircles

  /** A snapshot of the component's fields. */
  datatype Settings = Settings(step: nat, width: nat, height: nat,
                               arrowsEnabled: bool, pathsEnabled: bool, circlesEnabled: bool)

  /** The state `create` builds: a 500 × 500 canvas, step 15, all layers off. */
  const Initial: Settings := Settings(15, 500, 500, false, false, false)

  /** The switch that message `m` controls. */
  function Switch(s: Settings, m: Msg): bool
  {
    match m
    case ToggleArrows => s.arrowsEnabled
    case TogglePaths => s.pathsEnabled
    case ToggleCircles => s.circlesEnabled
  }

  /** The state after `update(m)`: the switch of `m` is inverted, and the
      dimensions, the step and the two other switches are as they were. */
  function Toggle(s: Settings, m: Msg): (t: Settings)
    ensures Switch(t, m) == !Switch(s, m)
    ensures forall other :: other != m ==> Switch(t, other) == Switch(s, other)
    ensures t.step == s.step && t.width == s.width && t.height == s.height
  {
    match m
    case ToggleArrows => s.(arrowsEnabled := !s.arrowsEnabled)
    case TogglePaths => s.(pathsEnabled := !s.pathsEnabled)
    case ToggleCircles => s.(circlesEnabled := !s.circlesEnabled)
  }

  /** The same message twice restores the state. */
  lemma ToggleTwice(s: Settings, m: Msg)
    ensures Toggle(Toggle(s, m), m) == s
  {
  }

  /** Messages commute: the state depends only on how often each check box
      was clicked, not on the order. */
  lemma ToggleCommutes(s: Settings, a: Msg, b: Msg)
    ensures Toggle(Toggle(s, a), b) == Toggle(Toggle(s, b), a)
  {
  }

  /** The state after a sequence of messages, applied in order. */
  function ApplyAll(s: Settings, msgs: seq<Msg>): Settings
    decreases msgs
  {
    if msgs == [] then s else ApplyAll(Toggle(s, msgs[0]), msgs[1..])
  }

  /** Number of occurrences of `m` in `msgs`. */
  function Count(msgs: seq<Msg>, m: Msg): nat
  {
    if msgs == [] then 0 else (if msgs[0] == m then 1 else 0) + Count(msgs[1..], m)
  }

  /** After any sequence of clicks a switch is on exactly when it started off
      and was clicked an odd number of times, or started on and was clicked
      an even number of times; the dimensions and step never change. */
  lemma {:induction false} ApplyAllParity(s: Settings, msgs: seq<Msg>, m: Msg)
    ensures Switch(ApplyAll(s, msgs), m) == (Switch(s, m) != (Count(msgs, m) % 2 == 1))
    ensures ApplyAll(s, msgs).step == s.step
    ensures ApplyAll(s, msgs).width == s.width && ApplyAll(s, msgs).height == s.height
    decreases msgs
  {
    if msgs != [] {
      ApplyAllParity(Toggle(s, msgs[0]), msgs[1..], m);
    }
  }

  /** The component. */
  class Model {
    var step: nat
    var width: nat
    var height: nat
    var arrowsEnabled: bool
    var pathsEnabled: bool
    var circlesEnabled: bool

    /** The current field values. */
    function Current(): Settings
      reads this
    {
      Settings(step, width, height, arrowsEnabled, pathsEnabled, circlesEnabled)
    }

    /** `Model::create`. */
    constructor Create()
      ensures Current() == Initial
    {
      width := 500;
      height := 500;
      step := 15;
      arrowsEnabled := false;
      pathsEnabled := false;
      circlesEnabled := false;
    }

    /** `Model::update`: flip the switch of `msg` and ask for a re-render. */
    method Update(msg: Msg) returns (shouldRender: bool)
      modifies this
      ensures Current() == Toggle(old(Current()), msg)
      ensures shouldRender
    {
      match msg {
        case ToggleArrows => arrowsEnabled := !arrowsEnabled;
        case TogglePaths => pathsEnabled := !pathsEnabled;
        case ToggleCircles => circlesEnabled := !circlesEnabled;
      }
      shouldRender := true;
    }

    /** `Model::change`: the component has no properties, so a property
      change never asks for a re-render and leaves the state alone. */
    method Change() returns (shouldRender: bool)
      ensures !shouldRender
    {
      shouldRender := false;
    }
  }

  /** A client's view: two clicks on the same box leave the component as
      `create` built it, and every click asks for a re-render. */
  method ClickTwice(msg: Msg) returns (m: Model)
    ensures fresh(m) && m.Current() == Initial
  {
    m := new Model.Create();
    var first := m.Update(msg);
    var second := m.Update(msg);
    assert first && second;
    ToggleTwice(Initial, msg);
  }
}
