/**
 The slice of ZMK's behavior driver interface that the selector and the
 OS-conditional dispatcher use: a binding (a behavior handle and its two
 parameters), the key event it is invoked for, and the handler verdicts.
 */
module Behavior {
  import opened OsTypes

  /** `struct zmk_behavior_binding`; `behavior` is an opaque device handle. */
  datatype Binding = Binding(behavior: nat, param1: Word, param2: Word)

  /** `struct zmk_behavior_binding_event`: key position and uptime stamp. */
  datatype KeyEvent = KeyEvent(position: nat, timestamp: int)

  /** `ZMK_BEHAVIOR_OPAQUE`: the event is consumed and not passed on. */
  const BehaviorOpaque: int := 0
}
