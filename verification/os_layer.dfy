/**
 The preferred-OS store: the single `preferred_os_type` value, the
 debounced persistence of it through the settings subsystem, the change
 events raised on every selection, and the wrap-around neighbour used for
 cycling. `src/os_layer.c` and `src/usb_os_detector.c` hold the same
 routines line for line; this module models both.

 The store is a value; each routine is a function from the old store to
 the new one. The delayable save work item is the `savePending` flag, the
 settings backend is the log `writes` of payloads written under
 "os_type/preferred", and the event bus is the log `events` of payloads of
 raised `zmk_preferred_os_state_changed` events.
 */
module OsLayer {
  import opened OsTypes

  datatype Store = Store(
    os: Word,                // preferred_os_type
    settingsEnabled: bool,   // CONFIG_SETTINGS
    savePending: bool,       // os_type_save_work is scheduled and has not fired
    events: seq<Word>,       // raised change events, oldest first
    writes: seq<seq<Byte>>   // settings_save_one payloads, oldest first
  )

  /** A new store together with the routine's return code. */
  datatype Outcome = Outcome(store: Store, rc: int)

  /** The store at boot, before the settings subsystem loads anything. */
  function Init(settingsEnabled: bool): (s: Store)
    ensures Get(s) == Other
    ensures s.settingsEnabled == settingsEnabled
    ensures !s.savePending && s.events == [] && s.writes == []
  {
    Store(Other, settingsEnabled, false, [], [])
  }

  /** `zmk_get_preferred_os_type`: the value read is the value stored, and
      reading it changes nothing. */
  function Get(s: Store): (os: Word)
    ensures os == s.os
  {
    s.os
  }

  /** `zmk_select_preferred_os_type`: store `os` unvalidated, (re)schedule the
      one save work item, raise one change event carrying the stored value. */
  function Select(s: Store, os: Word): (r: Outcome)
    ensures r.rc == 0
    ensures Get(r.store) == os
    ensures r.store.events == s.events + [os]
    ensures r.store.writes == s.writes
    ensures r.store.savePending <==> s.savePending || s.settingsEnabled
    ensures r.store.settingsEnabled == s.settingsEnabled
  {
    var stored := s.(os := os);
    // k_work_reschedule restarts the one delayable item; without
    // CONFIG_SETTINGS the save routine does nothing.
    var scheduled := stored.(savePending := s.savePending || s.settingsEnabled);
    Outcome(scheduled.(events := scheduled.events + [scheduled.os]), 0)
  }

  /** `os_type_save_preferred_work` running when the debounce delay elapses:
      it writes the value current at that moment, not the one current when
      the work was scheduled. Without a pending item nothing runs. */
  function SaveWorkFires(s: Store): (t: Store)
    ensures s.savePending ==> t.writes == s.writes + [Encode(Get(s))] && !t.savePending
    ensures !s.savePending ==> t == s
    ensures Get(t) == Get(s) && t.events == s.events && t.settingsEnabled == s.settingsEnabled
  {
    if s.savePending then
      s.(savePending := false, writes := s.writes + [Encode(s.os)])
    else
      s
  }

  /** `zmk_calc_next_os_type` as the authors evidently meant it, with
      `preferred_os_type + i` evaluated in signed arithmetic: anything past
      Win lands on Linux, anything before Linux lands on Win. The store is
      only read. See `CalcNextAsCompiled` for what the C expression does when
      the enum is `unsigned int`. */
  function CalcNext(s: Store, i: int): (r: Word)
    ensures IsCyclic(r)
    ensures IsCyclic(Get(s)) && -1 <= i <= 1 ==> r == (Get(s) + i) % 3
    ensures Get(s) > Win + 1 && -1 <= i <= 1 ==> r == Linux
  {
    var next := s.os + i;
    if next > Win then Linux
    else if next < Linux then Win
    else next
  }

  /** `zmk_calc_next_os_type` as compiled when `enum zmk_os_type` is an
      int-sized `unsigned int` (as on a native_posix build): `i` converts to
      unsigned and the sum wraps modulo 2^32, so the `< ZMK_OS_LINUX` branch
      can never be taken. With short enums the one-byte operand promotes to
      signed `int` and the code computes `CalcNext`. */
  function CalcNextAsCompiled(s: Store, i: int): (r: Word)
    requires -0x8000_0000 <= i < 0x8000_0000
    ensures IsCyclic(r)
    ensures r == Win ==> (Get(s) + i) % WordModulus == Win
  {
    var next := (s.os + i) % WordModulus;
    if next > Win then Linux
    else if next < Linux then Win
    else next
  }

  /** The as-compiled neighbour disagrees with the intended one: stepping back
      from Linux stays on Linux instead of wrapping to Win. */
  lemma PrevFromLinuxAsCompiled()
    ensures var s := Select(Init(true), Linux).store;
      CalcNextAsCompiled(s, -1) == Linux && CalcNext(s, -1) == Win
  {
  }

  /** Going forward, the as-compiled neighbour agrees with the intended one on
      the cyclic values; only the backward wrap is lost. */
  lemma NextAsCompiledAgrees(s: Store)
    requires IsCyclic(Get(s))
    ensures CalcNextAsCompiled(s, 1) == CalcNext(s, 1)
    ensures Get(s) != Linux ==> CalcNextAsCompiled(s, -1) == CalcNext(s, -1)
  {
  }

  /** The name test of `settings_name_steq(name, "preferred", NULL)`. */
  predicate NamesPreferred(name: string) {
    name == "preferred"
  }

  /** `os_type_handle_set`, the settings-load handler for the "os_type" tree.
      `payload` is the stored record (its length is the handler's `len`) and
      `readRc` is what the read callback returns; when it is positive the
      callback has copied the payload into `preferred_os_type`. The value is
      stored without any range check, no event is raised and no save is
      scheduled. */
  function HandleSet(s: Store, name: string, payload: seq<Byte>, readRc: int): (r: Outcome)
    ensures !NamesPreferred(name) ==> r == Outcome(s, 0)
    ensures NamesPreferred(name) && |payload| != EnumSize ==> r == Outcome(s, -EINVAL)
    ensures NamesPreferred(name) && |payload| == EnumSize && readRc <= 0 ==> r == Outcome(s, readRc)
    ensures NamesPreferred(name) && |payload| == EnumSize && readRc > 0 ==>
      r.rc == 0 && Encode(Get(r.store)) == payload && r.store == s.(os := Get(r.store))
  {
    if NamesPreferred(name) then
      if |payload| != EnumSize then
        Outcome(s, -EINVAL)
      else if readRc <= 0 then
        Outcome(s, readRc)
      else
        EncodeDecode(payload);
        Outcome(s.(os := Decode(payload)), 0)
    else
      Outcome(s, 0)
  }

  /** What a save writes, a later boot reads back: loading the latest record
      into a fresh store restores the value current when the save fired. */
  lemma PersistRoundTrip(s: Store)
    requires s.savePending
    ensures var t := SaveWorkFires(s);
      var booted := HandleSet(Init(true), "preferred", t.writes[|t.writes| - 1], EnumSize);
      booted.rc == 0 && Get(booted.store) == Get(s)
  {
    DecodeEncode(Get(s));
  }

  /** One cycling step as the selector performs it on press:
      `select(calc_next(d))`. */
  function CycleStep(s: Store, d: int): Store {
    Select(s, CalcNext(s, d)).store
  }

  /** With the signed reading of `zmk_calc_next_os_type` (`CalcNext`; see
      `CalcNextAsCompiled` for the unsigned one, under which stepping back
      from Linux sticks on Linux): three steps in the same direction from
      Linux, Mac or Win come back to the start, passing through the other two
      values. */
  lemma ThreeStepsReturn(s: Store, d: int)
    requires IsCyclic(Get(s)) && (d == 1 || d == -1)
    ensures var s1 := CycleStep(s, d);
      var s2 := CycleStep(s1, d);
      var s3 := CycleStep(s2, d);
      Get(s3) == Get(s) && Get(s1) != Get(s) && Get(s2) != Get(s) && Get(s1) != Get(s2)
  {
    var s1 := CycleStep(s, d);
    var s2 := CycleStep(s1, d);
    assert Get(s1) == (Get(s) + d) % 3;
    assert Get(s2) == (Get(s1) + d) % 3;
  }

  /** With the signed reading of `zmk_calc_next_os_type`: a step forward and a
      step back return to the start. */
  lemma StepBackUndoesStep(s: Store, d: int)
    requires IsCyclic(Get(s)) && (d == 1 || d == -1)
    ensures Get(CycleStep(CycleStep(s, d), -d)) == Get(s)
  {
  }

  /** The sentinel Other is outside the cycle and both directions leave it
      for Linux, since 21 and 19 both exceed Win. */
  lemma OtherStepsToLinux(s: Store)
    requires Get(s) == Other
    ensures Get(CycleStep(s, 1)) == Linux && Get(CycleStep(s, -1)) == Linux
  {
  }

  /** A burst of selections, oldest first. */
  function SelectAll(s: Store, xs: seq<Word>): (t: Store)
    ensures t.events == s.events + xs
    ensures t.writes == s.writes && t.settingsEnabled == s.settingsEnabled
    ensures |xs| > 0 ==> Get(t) == xs[|xs| - 1] && (t.savePending <==> s.savePending || s.settingsEnabled)
    ensures |xs| == 0 ==> t == s
    decreases |xs|
  {
    if |xs| == 0 then s
    else Select(SelectAll(s, xs[..|xs| - 1]), xs[|xs| - 1]).store
  }

  /** Debouncing: however many selections arrive before the save work fires,
      exactly one record is written, holding the last selected value, and
      the work does not run again afterwards. */
  lemma BurstWritesOnce(s: Store, xs: seq<Word>)
    requires s.settingsEnabled && |xs| > 0
    ensures var fired := SaveWorkFires(SelectAll(s, xs));
      fired.writes == s.writes + [Encode(xs[|xs| - 1])] && SaveWorkFires(fired) == fired
  {
  }

  /** The inputs the store reacts to after boot. */
  datatype Action = SelectOs(os: Word) | SaveTimerExpires

  function Step(s: Store, a: Action): Store {
    match a
    case SelectOs(os) => Select(s, os).store
    case SaveTimerExpires => SaveWorkFires(s)
  }

  function Run(s: Store, acts: seq<Action>): Store
    decreases |acts|
  {
    if |acts| == 0 then s else Run(Step(s, acts[0]), acts[1..])
  }

  /** With settings enabled, whenever no save is pending the newest record
      holds the current value. This rests on every settings write
      succeeding: the source ignores the result of `settings_save_one`, so a
      failed write would leave the newest record stale. */
  predicate FlashCurrent(s: Store) {
    s.settingsEnabled && !s.savePending && |s.writes| > 0 ==>
      s.writes[|s.writes| - 1] == Encode(Get(s))
  }

  lemma {:induction false} RunKeepsFlashCurrent(s: Store, acts: seq<Action>)
    requires FlashCurrent(s)
    ensures FlashCurrent(Run(s, acts))
    ensures Run(s, acts).settingsEnabled == s.settingsEnabled
    decreases |acts|
  {
    if |acts| > 0 {
      var t := Step(s, acts[0]);
      assert FlashCurrent(t);
      RunKeepsFlashCurrent(t, acts[1..]);
    }
  }
}
