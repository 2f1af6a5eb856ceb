/**
 The OS selector behavior. Before a binding is forwarded to the other
 halves of a split keyboard, the central half rewrites it into the
 absolute command `OS_SET_CMD` with the target OS in `param2`, computing
 relative commands from its own store. Pressing a binding then selects an
 OS; releasing it does nothing.
 */
module OsSelector {
  import opened OsTypes
  import opened Behavior
  import OsLayer

  /** Command codes carried in `param1`. The keypad codes coincide with the
      ordinals of the OS they select. */
  const KpOsLinux: Word := 0
  const KpOsMac: Word := 1
  const KpOsWin: Word := 2
  const GoNextOsCmd: Word := 3
  const GoPrevOsCmd: Word := 4
  const OsSetCmd: Word := 5

  predicate IsKeypadCmd(cmd: Word) {
    cmd == KpOsLinux || cmd == KpOsMac || cmd == KpOsWin
  }

  predicate IsRelativeCmd(cmd: Word) {
    cmd == GoNextOsCmd || cmd == GoPrevOsCmd
  }

  /** `on_keymap_binding_convert_central_state_dependent_params`. Returns the
      rewritten binding; the C routine always returns 0. The store is only
      read. */
  function Convert(b: Binding, s: OsLayer.Store): (r: Binding)
    ensures r.behavior == b.behavior
    ensures !IsRelativeCmd(r.param1)
    ensures IsKeypadCmd(b.param1) ==> r.param1 == OsSetCmd && r.param2 == b.param1
    ensures b.param1 == GoNextOsCmd ==> r.param1 == OsSetCmd && r.param2 == OsLayer.CalcNext(s, 1)
    ensures b.param1 == GoPrevOsCmd ==> r.param1 == OsSetCmd && r.param2 == OsLayer.CalcNext(s, -1)
    ensures !IsKeypadCmd(b.param1) && !IsRelativeCmd(b.param1) ==> r == b
  {
    match b.param1
    case 3 => b.(param1 := OsSetCmd, param2 := OsLayer.CalcNext(s, 1))
    case 4 => b.(param1 := OsSetCmd, param2 := OsLayer.CalcNext(s, -1))
    case 0 => b.(param1 := OsSetCmd, param2 := Linux)
    case 1 => b.(param1 := OsSetCmd, param2 := Mac)
    case 2 => b.(param1 := OsSetCmd, param2 := Win)
    case _ => b
  }

  /** `on_keymap_binding_pressed`: a keypad command selects its own OS, the
      absolute command selects `param2` unvalidated, and anything else,
      including a relative command that was never rewritten, is refused with
      -ENOTSUP and leaves the store alone. */
  function Pressed(s: OsLayer.Store, b: Binding): (r: OsLayer.Outcome)
    ensures IsKeypadCmd(b.param1) ==> r == OsLayer.Select(s, b.param1)
    ensures b.param1 == OsSetCmd ==> r == OsLayer.Select(s, b.param2)
    ensures !IsKeypadCmd(b.param1) && b.param1 != OsSetCmd ==> r == OsLayer.Outcome(s, -ENOTSUP)
  {
    match b.param1
    case 0 => OsLayer.Select(s, Linux)
    case 1 => OsLayer.Select(s, Mac)
    case 2 => OsLayer.Select(s, Win)
    case 5 => OsLayer.Select(s, b.param2)
    case _ => OsLayer.Outcome(s, -ENOTSUP)
  }

  /** `on_keymap_binding_released`: inert. */
  function Released(s: OsLayer.Store, b: Binding): (r: OsLayer.Outcome)
    ensures r.store == s && r.rc == BehaviorOpaque
  {
    OsLayer.Outcome(s, BehaviorOpaque)
  }

  /** A key press on the central half: rewrite, then press. */
  function KeyPressed(s: OsLayer.Store, b: Binding): OsLayer.Outcome {
    Pressed(s, Convert(b, s))
  }

  /** Rewriting is idempotent, whichever store the second rewrite reads: an
      already-absolute command is left untouched. */
  lemma ConvertIdempotent(b: Binding, s: OsLayer.Store, t: OsLayer.Store)
    ensures Convert(Convert(b, s), t) == Convert(b, s)
  {
  }

  /** Split halves converge: a selector binding rewritten on the central half
      (or already absolute), pressed on any half whatever that half's store
      held, selects the same OS there, the one the central half computed. */
  lemma HalvesConverge(b: Binding, central: OsLayer.Store, h1: OsLayer.Store, h2: OsLayer.Store)
    requires IsKeypadCmd(b.param1) || IsRelativeCmd(b.param1) || b.param1 == OsSetCmd
    ensures var c := Convert(b, central);
      var r1 := Pressed(h1, c);
      var r2 := Pressed(h2, c);
      r1.rc == 0 && r2.rc == 0 && OsLayer.Get(r1.store) == OsLayer.Get(r2.store) == c.param2
  {
  }

  /** A keypad or relative command (KP_OS_* or GO_NEXT/GO_PREV), rewritten
      and pressed on the central half, succeeds, lands on Linux, Mac or Win
      and raises exactly one event carrying it. */
  lemma KeyPressSelectsCyclic(s: OsLayer.Store, b: Binding)
    requires IsKeypadCmd(b.param1) || IsRelativeCmd(b.param1)
    ensures var r := KeyPressed(s, b);
      r.rc == 0 && IsCyclic(OsLayer.Get(r.store)) && r.store.events == s.events + [OsLayer.Get(r.store)]
  {
  }

  /** A relative command that bypassed the rewrite is not supported on press. */
  lemma UnconvertedRelativeRefused(s: OsLayer.Store, b: Binding)
    requires IsRelativeCmd(b.param1)
    ensures Pressed(s, b) == OsLayer.Outcome(s, -ENOTSUP)
  {
  }

  /** With the signed reading of `zmk_calc_next_os_type` (`OsLayer.CalcNext`):
      three presses of "next OS" (or of "previous OS") from Linux, Mac or Win
      come back to where they started. */
  lemma ThreeRelativePressesReturn(s: OsLayer.Store, b: Binding)
    requires IsCyclic(OsLayer.Get(s)) && IsRelativeCmd(b.param1)
    ensures var s1 := KeyPressed(s, b).store;
      var s2 := KeyPressed(s1, b).store;
      OsLayer.Get(KeyPressed(s2, b).store) == OsLayer.Get(s)
  {
    var d := if b.param1 == GoNextOsCmd then 1 else -1;
    var s1 := KeyPressed(s, b).store;
    var s2 := KeyPressed(s1, b).store;
    assert s1 == OsLayer.CycleStep(s, d);
    assert s2 == OsLayer.CycleStep(s1, d);
    assert KeyPressed(s2, b).store == OsLayer.CycleStep(s2, d);
    OsLayer.ThreeStepsReturn(s, d);
  }
}
