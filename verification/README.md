# Preferred-OS selection for ZMK keyboards — a Dafny model

This project models the logic of a ZMK keyboard module that decides which
operating system the keymap targets. It has three parts.

- **The preferred-OS store** (`src/os_layer.c`, with the same routines
  copied into `src/usb_os_detector.c`). It holds one `enum zmk_os_type`
  value: Linux 0, Mac 1, Win 2, or the sentinel Other 20. It provides:
  - `select`, which overwrites the value, reschedules the one debounced
    save and raises a change event;
  - `get`;
  - the wrap-around neighbour `zmk_calc_next_os_type`;
  - a settings-load handler that restores the value at boot.
- **The OS selector behavior** (`src/behaviors/behavior_os_selector.c`).
  It first rewrites relative and keypad commands into the absolute
  `OS_SET_CMD`, using the central half's store. Only then is the binding
  replicated to the other halves. On press it selects. Release is inert.
- **The OS-conditional behavior** (`src/behaviors/behavior_os_mod.c`).
  On a key event it reads the current OS once. It then queues every
  configured binding whose `param2` equals that OS, in array order.

Modules, one per file:

- `OsTypes` (`os_types.dfy`): the enum ordinals, the 32-bit word the enum is assumed to
  occupy, its four-byte little-endian image as persisted, and the errno
  values.
- `Behavior` (`behavior.dfy`): bindings, key events and
  `ZMK_BEHAVIOR_OPAQUE`.
- `OsLayer` (`os_layer.dfy`): the store, as an immutable record with pure
  transitions.
  - The delayable save work item is a `savePending` flag.
  - The settings backend is the log of written payloads.
  - The event bus is the log of raised change events.
  - `CONFIG_SETTINGS` is a field of the record.
- `OsSelector` (`os_selector.dfy`): the command rewrite and the press and
  release handlers.
- `OsMod` (`os_mod.dfy`): `queue_os` and its handlers, as written. Also a
  corrected, press/release-paired variant (see Findings).

Representation choices:

- The enum is assumed to be int-sized, as on a native_posix build: GCC
  then makes an enum with no negative enumerator a 32-bit `unsigned int`,
  and `sizeof(enum zmk_os_type)` (`EnumSize`) is 4. Bare-metal ARM EABI
  toolchains, which ZMK boards are usually built with, use short enums
  instead. There `EnumSize` would be 1, `preferred_os_type + i` promotes to
  signed `int`, and `CalcNext` is exactly what the code computes.
- `zmk_calc_next_os_type` is modelled as the authors evidently meant it,
  with `preferred_os_type + i` computed in signed arithmetic. The
  unsigned, as-compiled reading is modelled beside it and logged under
  Findings.

Three behaviours of the code are worth knowing:

- Release does not pair with press.
- A wrong-sized settings record returns -EINVAL. A failed read returns the
  read callback's code, which is 0 for an empty read. Either way no default
  is substituted and the value stays Other.
- `select` stores any value without checking that it is a defined OS.

## Model

| member | source | states |
|---|---|---|
| OsLayer.Init | src/os_layer.c:18 | Before any load or selection, the stored OS is Other (20). No save is pending, no event has been raised and nothing has been written. |
| OsLayer.Get | src/os_layer.c:76 | Returns the stored value and changes nothing: after `select(x)` it yields `x`, and after a settings load it yields the loaded value. |
| OsLayer.Select | src/os_layer.c:66-74 | `select(x)` returns 0 and `get` then yields exactly `x`, with no validation. Exactly one event carrying `x` is appended, even when `x` equals the old value. The save is pending afterwards iff settings are enabled or it already was. Nothing is written yet. |
| OsLayer.SaveWorkFires | src/os_layer.c:21-24 | When the pending work runs, it writes the byte image of the value current at fire time and clears the pending flag. Without pending work nothing changes. The OS and the events are untouched. |
| OsLayer.CalcNext | src/os_layer.c:78-86 | With the signed reading of calc_next (see Findings): the result is always Linux, Mac or Win. From a cyclic value with a step in -1..1 it is the value plus the step, modulo 3. From any value above Win+1, such as Other, a step of ±1 gives Linux. The store is only read. |
| OsLayer.CalcNextAsCompiled | src/usb_os_detector.c:83-91 | The as-compiled reading, with an unsigned enum and a sum that wraps modulo 2^32. It always lands in Linux..Win. It yields Win only when the wrapped sum is exactly Win, so the `< ZMK_OS_LINUX` branch is dead. |
| OsLayer.PrevFromLinuxAsCompiled | src/os_layer.c:81-82 | Counterexample: with Linux stored, the as-compiled step -1 yields Linux. The intended step yields Win. |
| OsLayer.NextAsCompiledAgrees | src/os_layer.c:79-80 | From Linux, Mac or Win, the as-compiled and intended steps agree on +1. They also agree on -1 from everything except Linux. |
| OsLayer.HandleSet | src/os_layer.c:40-59 | A record not named "preferred" returns 0 with no change. A "preferred" payload whose length is not sizeof(enum) returns -EINVAL with no change. A failing read callback returns its code with no change. Otherwise the payload is stored without a range check and 0 is returned. No event is raised and no save is scheduled. |
| OsLayer.PersistRoundTrip | src/usb_os_detector.c:26-64 | Loading the record a save just wrote into a fresh store succeeds. The restored value is the one current when the save fired. |
| OsTypes.DecodeEncode | src/os_layer.c:22-23 | Reading back the persisted image of a value yields that value. |
| OsTypes.EncodeDecode | src/os_layer.c:45-51 | Every payload of the accepted length is the image of the value it loads as. Loading therefore loses no information. |
| OsLayer.ThreeStepsReturn | src/os_layer.c:78-86 | With the signed reading of calc_next (see Findings): start from Linux, Mac or Win and take three `select(calc_next(d))` steps in one direction. The store returns to the start, and the two intermediate values are distinct from each other and from the start. |
| OsLayer.StepBackUndoesStep | src/usb_os_detector.c:83-91 | With the signed reading of calc_next (see Findings): from a cyclic value, a step in one direction followed by a step in the other returns to the start. |
| OsLayer.OtherStepsToLinux | src/os_layer.c:78-80 | From Other, both +1 and -1 select Linux, because 21 and 19 both exceed Win. |
| OsLayer.SelectAll | src/usb_os_detector.c:71-79 | A burst of selections appends exactly the selected values to the event log, in order. It writes nothing. It leaves the last value selected and the save pending when settings are enabled. |
| OsLayer.BurstWritesOnce | src/os_layer.c:29-36 | With settings enabled, a burst of selections before the save fires gives exactly one write. That write holds the last selected value, and the work does not write again afterwards. |
| OsLayer.RunKeepsFlashCurrent | src/usb_os_detector.c:26-41 | Assuming every settings write succeeds, this holds over any sequence of selections and timer expiries: whenever no save is pending, the newest persisted record holds the current value. |
| OsSelector.Convert | src/behaviors/behavior_os_selector.c:21-58 | With the signed reading of calc_next (see Findings): GO_NEXT becomes (`OS_SET_CMD`, calc_next(+1)) and GO_PREV becomes (`OS_SET_CMD`, calc_next(-1)), both from the local store. KP_OS_LINUX/MAC/WIN become (`OS_SET_CMD`, the OS with that ordinal). Every other binding, `OS_SET_CMD` included, is returned unchanged. No relative command survives the rewrite, and the behavior handle is kept. |
| OsSelector.Pressed | src/behaviors/behavior_os_selector.c:60-84 | A keypad command selects its own OS, and `OS_SET_CMD` selects `param2` unvalidated. Both return `select`'s result. Any other command returns -ENOTSUP with the store unchanged. |
| OsSelector.Released | src/behaviors/behavior_os_selector.c:86-89 | Release leaves the store unchanged and returns `ZMK_BEHAVIOR_OPAQUE`. |
| OsSelector.ConvertIdempotent | src/behaviors/behavior_os_selector.c:51-57 | Rewriting an already rewritten binding, against any store, changes nothing. |
| OsSelector.HalvesConverge | src/behaviors/behavior_os_selector.c:21-84 | Take a selector binding (keypad, relative or `OS_SET_CMD`) rewritten on the central half. Pressing it on any two halves succeeds on both and leaves both holding the value the central half computed, whatever their stores held before. |
| OsSelector.KeyPressSelectsCyclic | src/behaviors/behavior_os_selector.c:26-50 | A keypad or relative command (KP_OS_* or GO_NEXT/GO_PREV), rewritten and pressed, returns 0. It lands on Linux, Mac or Win and raises exactly one event carrying that value. |
| OsSelector.UnconvertedRelativeRefused | src/behaviors/behavior_os_selector.c:72-83 | A GO_NEXT or GO_PREV that reaches the press handler unrewritten returns -ENOTSUP with no state change. |
| OsSelector.ThreeRelativePressesReturn | src/behaviors/behavior_os_selector.c:26-35 | With the signed reading of calc_next (see Findings): from Linux, Mac or Win, three presses of GO_NEXT, or three of GO_PREV, return to the starting OS. |
| OsMod.Queue | src/behaviors/behavior_os_mod.c:24-35 | Every queued entry carries the caller's event and press flag, a wait of 15, and a binding whose `param2` equals the snapshot OS. There are never more entries than bindings. |
| OsMod.MatchIndices | src/behaviors/behavior_os_mod.c:29-34 | These are the positions of the bindings tagged with the snapshot OS. Every such position is listed and only those, in strictly increasing order. |
| OsMod.QueueIsMatchingSubsequence | src/behaviors/behavior_os_mod.c:29-34 | The queue is exactly the ordered subsequence of bindings tagged with the snapshot: its k-th entry is the binding at the k-th matching position. |
| OsMod.NoMatchQueuesNothing | src/behaviors/behavior_os_mod.c:29-34 | If no binding is tagged with the snapshot OS, nothing is queued. |
| OsMod.QueueOs | src/behaviors/behavior_os_mod.c:24-35 | The current OS is read once, before the loop. The loop then queues exactly the entries `Queue` describes for that snapshot. It changes neither the array nor the store. |
| OsMod.OnPressed | src/behaviors/behavior_os_mod.c:37-43 | Press queues the bindings for the OS current at press time, as presses, and returns `ZMK_BEHAVIOR_OPAQUE`, even when nothing matched. |
| OsMod.OnReleased | src/behaviors/behavior_os_mod.c:45-51 | Release re-reads the OS current at release time. It queues the bindings for that OS as presses (press flag true) and returns `ZMK_BEHAVIOR_OPAQUE`. |
| OsMod.ReleaseNotPaired | src/behaviors/behavior_os_mod.c:37-51 | Take the table A/B/C for Linux/Mac/Win and press with Mac selected. After selecting Linux while the key is held, release presses A. Nothing releases B. |
| OsMod.PairedPressed | src/behaviors/behavior_os_mod.c:37-43 | The corrected press queues what `on_keymap_binding_pressed` queues. It also records those bindings under the key position. |
| OsMod.PairedReleased | src/behaviors/behavior_os_mod.c:45-51 | The corrected release consumes the record for the key position. It queues exactly the recorded bindings, as releases, without reading the OS. A release without a record queues nothing. |
| OsMod.PairedReleaseMatchesPress | src/behaviors/behavior_os_mod.c:24-51 | With the corrected handlers, the release releases exactly the bindings the press pressed, whatever was selected in between, and the record is removed. |
| OsMod.PairedScenario | src/behaviors/behavior_os_mod.c:37-51 | On the A/B/C scenario, the corrected handlers press B and later release B, leaving no record. |

## Left out

- Zephyr's delayable work, the settings subsystem and the event manager are abstracted. The model has a pending-save flag, a log of written payloads and a log of raised events. The debounce delay `CONFIG_ZMK_SETTINGS_SAVE_DEBOUNCE` appears only as the point at which `SaveWorkFires` is applied.
- OsLayer.HandleSet: the name test `settings_name_steq` is modelled as exact equality with "preferred". Zephyr's routine also accepts names that continue with a separator; its source is not part of this model.
- OsLayer.SaveWorkFires: a failed settings write is not modelled; every write succeeds. The source ignores the result of `settings_save_one` and never retries, so a failed write is dropped silently and the newest record stays stale until the next selection.
- OsLayer.HandleSet: the handler is modelled without its `CONFIG_SETTINGS` gate; in the source it exists only when settings are enabled, so it is never called on a store whose `settingsEnabled` is false.
- OsLayer.HandleSet: the read callback is modelled by its return code alone. A positive code means the whole four-byte payload was copied. Partial reads that overwrite only some bytes are not modelled.
- OsLayer.CalcNext: `preferred_os_type + i` is computed on unbounded integers. Signed overflow near INT_MAX is not modelled, and the selector only ever passes ±1.
- `SYS_INIT` and the init routines (`os_layer_init`, `zmk_usb_os_detector_init`) only initialise the work item. The commented-out USB HID scaffolding does nothing. Neither is modelled.
- Logging and behavior locality are not modelled. Neither is the split transport that replicates a rewritten binding to the other halves; OsSelector.HalvesConverge states what replication relies on.
- `src/bridge/handler.c` and `src/bridge_handler.c`, the remote-control handlers, are not modelled. They look up a device, sleep and invoke behaviors through foreign interfaces. Their only logic is select-then-pulse, and both answer ok even when the device is not ready.
- The devicetree instantiation macros of `behavior_os_mod.c` are not modelled. The binding array is a sequence, and `count` is its length. The macros also name `behavior_dynamic_*` symbols that the file does not define.
- `include/zmk/os_detector.h` declares a conflicting three-value enum without Other. The model uses the `include/zmk/os_layer.h` enum, which the store's initial value needs.

## Findings

| source | as written | input that shows it | evidently intended | confidence | as-written member | corrected member |
|---|---|---|---|---|---|---|
| src/os_layer.c:78-86 (same in src/usb_os_detector.c:83-91) | With `enum zmk_os_type` laid out as `unsigned int`, `preferred_os_type + i` is unsigned. The `< ZMK_OS_LINUX` branch can then never be taken. | Linux stored, `zmk_calc_next_os_type(-1)`: 0 + (-1) wraps to 0xFFFFFFFF, which is greater than Win, so the result is Linux | Stepping back from Linux wraps to Win | medium: only on builds with int-sized enums, such as native_posix; on bare-metal ARM EABI builds, which use short enums, the operand promotes to signed int and the code works; not executed | OsLayer.CalcNextAsCompiled, OsLayer.PrevFromLinuxAsCompiled | OsLayer.CalcNext |
| src/behaviors/behavior_os_mod.c:45-51 | The release handler calls `queue_os(..., true, ...)`. It queues presses, not releases, for the OS current at release time. | Table A/B/C for Linux/Mac/Win; press with Mac selected, select Linux, release. B is pressed, then A is pressed, and nothing is released. | Release releases exactly the bindings pressed at press time | high: the press flag is the literal `true` and no press record exists; not executed | OsMod.OnReleased, OsMod.ReleaseNotPaired | OsMod.PairedReleased, OsMod.PairedReleaseMatchesPress |
