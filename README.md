# Target-action dispatch and button message routing of a Win32 control wrapper

This project models the two pieces of decision logic in a thin Swift wrapper
around native Win32 controls. It does not model the calls into the operating
system.

- **`Control`** (`control.dfy`) is a class. Its `actions` field maps a
  single-bit control `Event` to the callbacks registered for it, in
  registration order.
  - The three `addTarget` overloads differ only in the arity of the action.
  - The zero-argument and one-argument overloads check that the event has
    exactly one bit set. Each then appends a normalised `Callback` to that
    event's list and creates the list if it is absent.
  - The two-argument overload builds its callback and discards it, so it
    registers nothing. It also has no single-bit check. The model keeps both
    behaviours.
  - `SendActions` checks the same single-bit rule. It then walks the stored
    list and returns the trace of calls it makes: `Call(callback, sender,
    event)`.
  - `Deliver` gives the arguments each normalised call passes to the user's
    action: nothing, the sender, or the sender and the event.
  - The single-bit rule is Swift's `nonzeroBitCount == 1` on the `Int` raw
    value. For a negative value this counts the bits of the 64-bit two's
    complement pattern. It is proved equivalent to "the 64-bit pattern is a
    power of two".
  - The seven `Control.State` constants are proved to be distinct single bits.
- **`SwiftButtonProc`** (`button.dfy`) is a pure function. It takes a message
  identifier and the button recovered from the subclass data, which may be
  absent.
  - It returns whether the message is consumed (`return 0`) or goes on to
    default processing. It also returns which delegate handler, if any, was
    called.
  - A `ButtonDelegate` handler is either the protocol extension's default,
    which returns 1, or an override with the answer it gives.

`Control.Event` is declared outside the modelled files. Its raw value is taken
to be a Swift `Int`, the same as `Control.State`'s. The message numbers
`WM_LBUTTONDOWN` (0x0201) and `WM_RBUTTONDOWN` (0x0204) are the Win32 values.

## Model

| member | source | states |
|---|---|---|
| `Control.Bits` | Sources/UI/Control.swift:74 | the raw value's unsigned 64-bit two's complement pattern: the raw value modulo 2^64. That is the value itself when non-negative, and at least 2^63 (sign bit set) when negative |
| `Control.NonzeroBitCount` | Sources/UI/Control.swift:74 | Swift's `nonzeroBitCount` on the 64-bit pattern. It is 0 exactly for the raw value 0 |
| `Control.SingleBit` | Sources/UI/Control.swift:84-85 | the assertion `controlEvents.rawValue.nonzeroBitCount == 1`. An event that passes it is never the empty event (raw 0). Its exact meaning is given by `SingleBitIffPowerOfTwo` |
| `Control.PopCountOneIffPowerOfTwo` | Sources/UI/Control.swift:74-75 | a natural number has exactly one set bit iff it is a power of two (both directions) |
| `Control.SingleBitIffPowerOfTwo` | Sources/UI/Control.swift:99-100 | an event passes the single-bit assertion iff its 64-bit pattern is 2^k for some k < 64 |
| `Control.MinIntIsSingleBit` | Sources/UI/Control.swift:84-85 | the negative raw value `Int.min` passes the single-bit check (bit 63 alone) |
| `Control.ZeroAndTwoBitEventsRejected` | Sources/UI/Control.swift:74-75 | the empty event (raw 0, which is `allControlEvents`), a two-bit event (raw 3) and raw -1 (all bits) all fail the single-bit check |
| `Control.AllStates` | Sources/UI/Control.swift:116-124 | there are seven `Control.State` constants, and the k-th has raw value 2^k (`1 << k`) |
| `Control.StatesAreDistinctSingleBits` | Sources/UI/Control.swift:117-123 | every state constant has exactly one set bit and no two constants are equal |
| `Control.Deliver` | Sources/UI/Control.swift:60-62 | a normalised call reaches the bound target's own action (same instance, same method) |
| `Control.UnaryIgnoresEvent` | Sources/UI/Control.swift:44-50 | a one-argument action receives only the sender and cannot tell which event fired it |
| `Control.NullaryIgnoresSenderAndEvent` | Sources/UI/Control.swift:52-58 | a zero-argument action receives nothing and cannot tell which sender or event fired it |
| `Control.BinaryPassesBoth` | Sources/UI/Control.swift:38-42 | a two-argument action receives exactly the sender and the event of the call. Two such deliveries are equal iff they have the same sender and event |
| `Control.Register` | Sources/UI/Control.swift:76-78 | after registration the key set gains `e`. `e`'s list is the previous list (empty if absent) with the one new callback at its end. Every other key's list is unchanged |
| `Control.RegisterKeepsWellFormed` | Sources/UI/Control.swift:86-88 | registering under a single-bit event keeps every key single-bit with a non-empty list |
| `Control.Calls` | Sources/UI/Control.swift:101-102 | one call per callback, in list order, each with the given sender and event |
| `Control.Fire` | Sources/UI/Control.swift:98-102 | firing `e` makes exactly one call per callback stored under `e`, in registration order, each with `e` and the firing control. It makes no call when `e` has no entry |
| `Control.FireOnlyOwnCallbacks` | Sources/UI/Control.swift:101 | every call made when firing `e` is to a callback stored under `e`, with event `e` |
| `Control.FireAfterRegister` | Sources/UI/Control.swift:86-102 | after one registration for `e`, firing `e` makes the earlier calls and then one call to the new callback |
| `Control.FireAfterRegisterElsewhere` | Sources/UI/Control.swift:76-102 | a registration for another event does not change what firing `e` does |
| `Control.FireAfterRegisterAll` | Sources/UI/Control.swift:71-103 | registering N callbacks for `e` and then firing `e` calls all N once each, in registration order, after the callbacks already present |
| `Control.FireOtherAfterRegisterAll` | Sources/UI/Control.swift:81-103 | registering any number of callbacks for `e` leaves firing a different event unchanged |
| `Control.Control.constructor` | Sources/UI/Control.swift:66-69 | a new control has an empty table, and `allControlEvents` is the zero event |
| `Control.Control.AddTargetNullary` | Sources/UI/Control.swift:71-79 | requires the table invariant `Valid()` (every key single-bit with a non-empty list) and a single-bit event. The table becomes `Register` of the old table with a zero-argument callback. The invariant still holds |
| `Control.Control.AddTargetUnary` | Sources/UI/Control.swift:81-89 | requires the table invariant `Valid()` and a single-bit event. The table becomes `Register` of the old table with a one-argument callback. The invariant still holds |
| `Control.Control.AddTargetBinary` | Sources/UI/Control.swift:91-95 | has no precondition and leaves the table unchanged, because the built callback is discarded |
| `Control.Control.SendActions` | Sources/UI/Control.swift:98-103 | requires a single-bit event. Returns exactly the trace `Fire(actions, this, e)` and does not modify the table |
| `Button.PressMessage` | Sources/UI/Button.swift:50-56 | the left side's message is `WM_LBUTTONDOWN` and the right side's is `WM_RBUTTONDOWN`, and no other pairing holds |
| `Button.AskDelegate` | Sources/UI/Button.swift:51 | the optional chain yields an answer iff both the button and its delegate are present. That answer is what the delegate's handler for that side returns |
| `Button.HandlerFor` | Sources/UI/Button.swift:50-56 | picks `OnLeftButtonPressed` for the left-down case and `OnRightButtonPressed` for the right-down case (a definition, no contract) |
| `Button.RoutePress` | Sources/UI/Button.swift:50-59 | one button-down case: the message is consumed iff the button's delegate exists and its handler for that side answers 0. The handler for that side is called iff both the button and the delegate are present |
| `Button.OptionalEqualsZero` | Sources/UI/Button.swift:56 | the optional comparison with 0 holds only for a present 0, so `nil == 0` is false |
| `Button.SwiftButtonProc` | Sources/UI/Button.swift:47-64 | the message is consumed iff it is a left-down whose delegate's left handler answers 0, or a right-down whose delegate's right handler answers 0. A handler is called only for its own message, and always when a delegate is present |
| `Button.OtherMessagesGoToDefault` | Sources/UI/Button.swift:60-63 | any other message goes to default processing and no handler is consulted |
| `Button.MissingDelegateFallsThrough` | Sources/UI/Button.swift:48-63 | with no button or no delegate, every message goes to default processing and no handler is called |
| `Button.PressWithDelegate` | Sources/UI/Button.swift:50-59 | when a delegate is present, a button-down of either side calls that side's handler. The message is consumed iff the answer is 0, so a non-zero answer falls through |
| `Button.InheritedHandlerNeverVetoes` | Sources/UI/Button.swift:37-45 | a handler the delegate does not override never suppresses default processing of its message |
| `Button.DefaultDelegateNeverVetoes` | Sources/UI/Button.swift:38-44 | a delegate that overrides neither handler never suppresses default processing, whatever the message |

## Left out

- Native Win32 calls are not modelled: `SetWindowSubclass`, `DefSubclassProc`, `SetWindowTextW`, window classes and styles, and the handle types. `DefSubclassProc` appears only as the outcome `DefaultProcessing`.
- `Button.init` and its convenience form are not modelled. They only call the native API.
- `setTitle` is not modelled. It is a single native call that ignores its state argument.
- The `View` superclass, frame geometry and the cached window class are not part of this model.
- The swift `assert` on a single bit is modelled as a `requires`. The model does not cover optimised builds, where the assertion is dropped and a multi-bit key would be stored.
- The forced downcast `self as! Button` in `sendActions` is not modelled. The sender is the control itself, so a non-`Button` sender does not crash in the model.
- The `unsafeBitCast` recovery of the button from the subclass data is not modelled. It is the `Option<ButtonView>` argument.
- `unowned(safe)` targets and the `weak` delegate are not modelled, and neither is ARC. A target freed before firing does not trap in the model. A released delegate is just `None`.
- What the callbacks and handlers do is not modelled. Callbacks are opaque identities and firing records only the trace. A handler override is represented by the one `LRESULT` it answers for the message at hand, independent of `hWnd`, `wParam` and `lParam`.
- `LRESULT`'s 64-bit width is not modelled. A handler's answer is an unbounded `int`, which does not change the comparison with 0.
