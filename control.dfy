/**
 * The target-action table of a Win32 control wrapper.
 *
 * A `Control` owns a dictionary from a single-bit control event to the
 * insertion-ordered list of callbacks registered for it.  `addTarget`
 * appends to that list and `sendActions` invokes every callback of one
 * event in order.  Callbacks are opaque: what they do is not modelled,
 * only the sequence of normalised invocations `sendActions` performs.
 */
module Control {

  /** Swift's `Int`: a signed 64-bit integer. */
  newtype Int64 = x: int | -0x8000_0000_0000_0000 <= x < 0x8000_0000_0000_0000

  /** Two to the power `k`. */
  function Pow2(k: nat): (r: nat)
    ensures r >= 1
  {
    if k == 0 then 1 else 2 * Pow2(k - 1)
  }

  /** Number of one bits in the binary form of a natural number. */
  function PopCount(n: nat): nat
  {
    if n == 0 then 0 else n % 2 + PopCount(n / 2)
  }

  /** The unsigned 64-bit pattern of a signed value (two's complement). */
  function Bits(x: Int64): (u: nat)
    ensures u == (x as int) % 0x1_0000_0000_0000_0000
    ensures 0 <= x as int ==> u == x as int
    ensures x < 0 ==> u >= 0x8000_0000_0000_0000
  {
    if x < 0 then x as int + 0x1_0000_0000_0000_0000 else x as int
  }

  /** Swift's `Int.nonzeroBitCount`: ones in the two's complement pattern. */
  function NonzeroBitCount(x: Int64): (r: nat)
    ensures r == 0 <==> x == 0
  {
    PopCountZero(Bits(x));
    PopCount(Bits(x))
  }

  /** A control event: an option set over an `Int` raw value. */
  datatype Event = Event(rawValue: Int64)

  /** The precondition of registration and firing: exactly one bit set. */
  predicate SingleBit(e: Event): (b: bool)
    ensures b ==> e.rawValue != 0
  {
    NonzeroBitCount(e.rawValue) == 1
  }

  lemma {:induction false} PopCountZero(n: nat)
    ensures PopCount(n) == 0 <==> n == 0
  {
    if n != 0 {
      if n % 2 == 0 {
        assert n / 2 != 0;
        PopCountZero(n / 2);
      }
    }
  }

  lemma {:induction false} PopCountOfPow2(k: nat)
    ensures PopCount(Pow2(k)) == 1
  {
    if k == 0 {
      assert PopCount(1) == 1 + PopCount(0);
    } else {
      PopCountOfPow2(k - 1);
      assert Pow2(k) % 2 == 0 && Pow2(k) / 2 == Pow2(k - 1);
    }
  }

  /** The exponent of a natural number with a single one bit. */
  function Log2(n: nat): (k: nat)
    requires PopCount(n) == 1
    ensures n == Pow2(k)
  {
    PopCountZero(n);
    if n % 2 == 1 then
      PopCountZero(n / 2);
      0
    else
      Log2(n / 2) + 1
  }

  /** A natural number has exactly one bit set iff it is a power of two. */
  lemma PopCountOneIffPowerOfTwo(n: nat)
    ensures PopCount(n) == 1 <==> exists k: nat :: n == Pow2(k)
  {
    if PopCount(n) == 1 {
      var k := Log2(n);
    }
    if exists k: nat :: n == Pow2(k) {
      var k: nat :| n == Pow2(k);
      PopCountOfPow2(k);
    }
  }

  lemma {:induction false} Pow2Add(a: nat, b: nat)
    ensures Pow2(a + b) == Pow2(a) * Pow2(b)
  {
    if a > 0 {
      Pow2Add(a - 1, b);
    }
  }

  /** 2^63 and 2^64, the bounds of the 64-bit patterns. */
  lemma Pow2Bounds()
    ensures Pow2(63) == 0x8000_0000_0000_0000 && Pow2(64) == 0x1_0000_0000_0000_0000
  {
    assert Pow2(2) == 4;
    Pow2Add(2, 2);
    Pow2Add(4, 4);
    Pow2Add(8, 8);
    Pow2Add(16, 16);
    Pow2Add(32, 32);
  }

  /** An event passes the single-bit check iff its 64-bit pattern is a power of two. */
  lemma SingleBitIffPowerOfTwo(e: Event)
    ensures SingleBit(e) <==> exists k: nat :: k < 64 && Bits(e.rawValue) == Pow2(k)
  {
    var u := Bits(e.rawValue);
    PopCountOneIffPowerOfTwo(u);
    if SingleBit(e) {
      var k := Log2(u);
      if k >= 64 {
        Pow2Monotone(64, k);
        Pow2Bounds();
        assert false;
      }
      assert k < 64 && u == Pow2(k);
    }
  }

  lemma {:induction false} Pow2Monotone(j: nat, k: nat)
    requires j <= k
    ensures Pow2(j) <= Pow2(k)
  {
    if j < k {
      Pow2Monotone(j, k - 1);
    }
  }

  /** The smallest `Int` is a single-bit event: its pattern is bit 63 alone. */
  lemma MinIntIsSingleBit()
    ensures SingleBit(Event(-0x8000_0000_0000_0000))
  {
    var e := Event(-0x8000_0000_0000_0000);
    Pow2Bounds();
    assert Bits(e.rawValue) == Pow2(63);
    PopCountOneIffPowerOfTwo(Bits(e.rawValue));
  }

  /** Neither the empty event nor a two-bit event may be registered or fired. */
  lemma ZeroAndTwoBitEventsRejected()
    ensures !SingleBit(Event(0)) && !SingleBit(Event(3)) && !SingleBit(Event(-1))
  {
  }

  /** `Control.State`: an option set over an `Int` raw value. */
  datatype State = State(rawValue: Int64)

  const Normal: State := State(1)
  const Highlighted: State := State(2)
  const Disabled: State := State(4)
  const Selected: State := State(8)
  const Focused: State := State(16)
  const Application: State := State(32)
  const Reserved: State := State(64)

  /** The seven states in declaration order; the `k`-th is `1 << k`. */
  function AllStates(): (s: seq<State>)
    ensures |s| == 7
    ensures forall k :: 0 <= k < |s| ==> s[k].rawValue as int == Pow2(k)
  {
    assert Pow2(6) == 64;
    [Normal, Highlighted, Disabled, Selected, Focused, Application, Reserved]
  }

  /** Each state constant sets exactly one bit, and no two share a bit. */
  lemma StatesAreDistinctSingleBits()
    ensures forall k :: 0 <= k < |AllStates()| ==> NonzeroBitCount(AllStates()[k].rawValue) == 1
    ensures forall j, k :: 0 <= j < k < |AllStates()| ==> AllStates()[j] != AllStates()[k]
  {
  }

  /** How many arguments the registered action takes. */
  datatype Arity = Nullary | Unary | Binary

  /** A target object and one of its methods, both opaque identities. */
  type TargetId = nat
  type ActionId = nat

  /**
   * A registered callback.  Whatever the action's arity, it is stored in
   * the normalised shape "call with (sender, event)".
   */
  datatype Callback = Callback(instance: TargetId, action: ActionId, arity: Arity)

  /** What the user's action actually receives when a callback is called. */
  datatype Args = NoArgs | SenderArg(sender: Control) | SenderEventArgs(sender: Control, event: Event)

  /** An invocation of the user's action `action` on object `instance`. */
  datatype Delivery = Delivery(instance: TargetId, action: ActionId, args: Args)

  /** One normalised call made by `sendActions`. */
  datatype Call = Call(callback: Callback, sender: Control, event: Event)

  /**
   * The normalised `callAsFunction(sender:event:)`: a binary action gets both
   * arguments, a unary one only the sender, a nullary one nothing.
   */
  function Deliver(c: Call): (d: Delivery)
    ensures d.instance == c.callback.instance && d.action == c.callback.action
  {
    var args := match c.callback.arity
      case Nullary => NoArgs
      case Unary => SenderArg(c.sender)
      case Binary => SenderEventArgs(c.sender, c.event);
    Delivery(c.callback.instance, c.callback.action, args)
  }

  /** A one-argument action cannot tell which event fired it. */
  lemma UnaryIgnoresEvent(cb: Callback, s: Control, e1: Event, e2: Event)
    requires cb.arity == Unary
    ensures Deliver(Call(cb, s, e1)) == Deliver(Call(cb, s, e2))
    ensures Deliver(Call(cb, s, e1)).args == SenderArg(s)
  {
  }

  /** A zero-argument action cannot tell who fired it nor which event. */
  lemma NullaryIgnoresSenderAndEvent(cb: Callback, s1: Control, s2: Control, e1: Event, e2: Event)
    requires cb.arity == Nullary
    ensures Deliver(Call(cb, s1, e1)) == Deliver(Call(cb, s2, e2))
    ensures Deliver(Call(cb, s1, e1)).args == NoArgs
  {
  }

  /** A two-argument action sees exactly the sender and event it was called with. */
  lemma BinaryPassesBoth(c1: Call, c2: Call)
    requires c1.callback == c2.callback && c1.callback.arity == Binary
    ensures Deliver(c1).args == SenderEventArgs(c1.sender, c1.event)
    ensures Deliver(c1) == Deliver(c2) <==> c1.sender == c2.sender && c1.event == c2.event
  {
  }

  /** The table type: each event to its callbacks in registration order. */
  type Table = map<Event, seq<Callback>>

  /** `actions[e] ?? []`. */
  function Lookup(t: Table, e: Event): seq<Callback>
  {
    if e in t then t[e] else []
  }

  /** Every key passed the single-bit check and holds at least one callback. */
  predicate WellFormed(t: Table)
  {
    forall e :: e in t ==> SingleBit(e) && t[e] != []
  }

  /**
   * The table after registering `cb` for `e`: `e`'s list (empty if absent)
   * gains `cb` at its end and every other key is untouched.
   */
  function Register(t: Table, e: Event, cb: Callback): (r: Table)
    ensures r.Keys == t.Keys + {e}
    ensures r[e] == Lookup(t, e) + [cb]
    ensures forall k :: k != e ==> Lookup(r, k) == Lookup(t, k)
  {
    t[e := Lookup(t, e) + [cb]]
  }

  /** Registering under a single-bit event keeps the table well formed. */
  lemma RegisterKeepsWellFormed(t: Table, e: Event, cb: Callback)
    requires WellFormed(t) && SingleBit(e)
    ensures WellFormed(Register(t, e, cb))
  {
  }

  /** The calls made for the callbacks `cbs`, one per callback, in order. */
  function Calls(cbs: seq<Callback>, sender: Control, e: Event): (r: seq<Call>)
    ensures |r| == |cbs|
    ensures forall i :: 0 <= i < |r| ==> r[i] == Call(cbs[i], sender, e)
  {
    if cbs == [] then [] else Calls(cbs[..|cbs| - 1], sender, e) + [Call(cbs[|cbs| - 1], sender, e)]
  }

  /** The calls `sendActions(e)` makes on a control whose table is `t`. */
  function Fire(t: Table, sender: Control, e: Event): (r: seq<Call>)
    ensures e !in t ==> r == []
    ensures |r| == |Lookup(t, e)|
    ensures forall i :: 0 <= i < |r| ==> r[i].callback == Lookup(t, e)[i] && r[i].event == e && r[i].sender == sender
  {
    Calls(Lookup(t, e), sender, e)
  }

  /** Firing calls only callbacks stored under that event. */
  lemma FireOnlyOwnCallbacks(t: Table, sender: Control, e: Event, c: Call)
    requires c in Fire(t, sender, e)
    ensures e in t && c.callback in t[e] && c.event == e
  {
  }

  /** A registration for `e` adds exactly one call, at the end, to firing `e`. */
  lemma FireAfterRegister(t: Table, sender: Control, e: Event, cb: Callback)
    ensures Fire(Register(t, e, cb), sender, e) == Fire(t, sender, e) + [Call(cb, sender, e)]
  {
  }

  /** A registration for another event does not change what firing `e` does. */
  lemma FireAfterRegisterElsewhere(t: Table, sender: Control, e: Event, other: Event, cb: Callback)
    requires other != e
    ensures Fire(Register(t, other, cb), sender, e) == Fire(t, sender, e)
  {
  }

  /** The table after registering `cbs` for `e` one after another. */
  function RegisterAll(t: Table, e: Event, cbs: seq<Callback>): Table
  {
    if cbs == [] then t else Register(RegisterAll(t, e, cbs[..|cbs| - 1]), e, cbs[|cbs| - 1])
  }

  /**
   * Registering N callbacks for one event and then firing it calls all N,
   * each exactly once, in registration order, after those already there.
   */
  lemma {:induction false} FireAfterRegisterAll(t: Table, sender: Control, e: Event, cbs: seq<Callback>)
    ensures Fire(RegisterAll(t, e, cbs), sender, e) == Fire(t, sender, e) + Calls(cbs, sender, e)
  {
    if cbs != [] {
      var init, last := cbs[..|cbs| - 1], cbs[|cbs| - 1];
      var before := RegisterAll(t, e, init);
      FireAfterRegisterAll(t, sender, e, init);
      FireAfterRegister(before, sender, e, last);
      assert Calls(cbs, sender, e) == Calls(init, sender, e) + [Call(last, sender, e)];
    }
  }

  /** Registering callbacks for one event leaves firing any other event unchanged. */
  lemma {:induction false} FireOtherAfterRegisterAll(t: Table, sender: Control, e: Event, cbs: seq<Callback>, other: Event)
    requires other != e
    ensures Fire(RegisterAll(t, e, cbs), sender, other) == Fire(t, sender, other)
  {
    if cbs != [] {
      var init, last := cbs[..|cbs| - 1], cbs[|cbs| - 1];
      FireOtherAfterRegisterAll(t, sender, e, init, other);
      FireAfterRegisterElsewhere(RegisterAll(t, e, init), sender, other, e, last);
    }
  }

  /** A control: the native view part is not modelled, only its action table. */
  class Control {
    var actions: Table

    /** The empty event set (`rawValue` 0). */
    const allControlEvents: Event

    ghost predicate Valid()
      reads this
    {
      WellFormed(actions)
    }

    constructor ()
      ensures Valid() && actions == map[] && allControlEvents == Event(0)
    {
      actions := map[];
      allControlEvents := Event(0);
    }

    /** `addTarget(_:action:for:)` with an action of no arguments. */
    method AddTargetNullary(target: TargetId, action: ActionId, controlEvents: Event)
      requires Valid() && SingleBit(controlEvents)
      modifies this
      ensures Valid()
      ensures actions == Register(old(actions), controlEvents, Callback(target, action, Nullary))
    {
      var events := Lookup(actions, controlEvents);
      events := events + [Callback(target, action, Nullary)];
      actions := actions[controlEvents := events];
    }

    /** `addTarget(_:action:for:)` with an action taking the sender. */
    method AddTargetUnary(target: TargetId, action: ActionId, controlEvents: Event)
      requires Valid() && SingleBit(controlEvents)
      modifies this
      ensures Valid()
      ensures actions == Register(old(actions), controlEvents, Callback(target, action, Unary))
    {
      var events := Lookup(actions, controlEvents);
      events := events + [Callback(target, action, Unary)];
      actions := actions[controlEvents := events];
    }

    /**
     * `addTarget(_:action:for:)` with an action taking sender and event: it
     * builds the callback and drops it, so nothing is registered; it also
     * has no single-bit check.
     */
    method AddTargetBinary(target: TargetId, action: ActionId, controlEvents: Event)
      ensures actions == old(actions)
    {
      var _ := Callback(target, action, Binary);
    }

    /**
     * `sendActions(for:)`: calls every callback stored under `controlEvents`
     * once, in registration order, with this control as sender; the table
     * is only read.
     */
    method SendActions(controlEvents: Event) returns (trace: seq<Call>)
      requires SingleBit(controlEvents)
      ensures trace == Fire(actions, this, controlEvents)
    {
      trace := [];
      if controlEvents in actions {
        var callbacks := actions[controlEvents];
        var i := 0;
        while i < |callbacks|
          invariant 0 <= i <= |callbacks|
          invariant trace == Calls(callbacks[..i], this, controlEvents)
        {
          assert callbacks[..i + 1][..i] == callbacks[..i];
          trace := trace + [Call(callbacks[i], this, controlEvents)];
          i := i + 1;
        }
        assert callbacks[..i] == callbacks;
      }
    }
  }
}
