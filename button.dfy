/**
 * The message-routing rule of the Win32 push button.
 *
 * The button subclasses its native window with `SwiftButtonProc`.  For a
 * left or right button-down message the procedure asks the button's
 * delegate, if there is one, and a handler answer of 0 consumes the message;
 * everything else goes on to the default subclass procedure, which is
 * opaque here and appears only as the outcome `DefaultProcessing`.
 */
module Button {

  datatype Option<T> = None | Some(value: T)

  /** A Win32 `UINT` message identifier. */
  newtype Uint32 = x: int | 0 <= x < 0x1_0000_0000

  /** The Win32 message identifiers the procedure distinguishes. */
  const WM_LBUTTONDOWN: Uint32 := 0x0201
  const WM_RBUTTONDOWN: Uint32 := 0x0204

  /** The two pointer buttons the delegate can intercept. */
  datatype Side = Left | Right

  /** The button-down message for each side. */
  function PressMessage(side: Side): (m: Uint32)
    ensures m == WM_LBUTTONDOWN <==> side == Left
    ensures m == WM_RBUTTONDOWN <==> side == Right
  {
    match side
    case Left => WM_LBUTTONDOWN
    case Right => WM_RBUTTONDOWN
  }

  /**
   * One `ButtonDelegate` handler: either the protocol extension's default or
   * the delegate's own implementation, which answers `result` (an `LRESULT`)
   * for the message at hand.
   */
  datatype Handler = Inherited | Overridden(result: int)

  /** A delegate: its left-press and right-press handlers. */
  datatype Delegate = Delegate(onLeft: Handler, onRight: Handler)

  /** The button as the procedure sees it: only its weak `delegate` matters. */
  datatype ButtonView = ButtonView(delegate: Option<Delegate>)

  /** What a handler returns; the default implementations both return 1. */
  function Respond(h: Handler): int
  {
    match h
    case Inherited => 1
    case Overridden(result) => result
  }

  /** `OnLeftButtonPressed` or `OnRightButtonPressed`. */
  function HandlerFor(d: Delegate, side: Side): Handler
  {
    match side
    case Left => d.onLeft
    case Right => d.onRight
  }

  /**
   * The optional chain `button?.delegate?.OnXButtonPressed(...)`: `None`
   * when the button or its delegate is absent, otherwise the handler's answer.
   */
  function AskDelegate(button: Option<ButtonView>, side: Side): (r: Option<int>)
    ensures r.Some? <==> button.Some? && button.value.delegate.Some?
    ensures r.Some? ==> r.value == Respond(HandlerFor(button.value.delegate.value, side))
  {
    match button
    case None => None
    case Some(b) =>
      match b.delegate
      case None => None
      case Some(d) => Some(Respond(HandlerFor(d, side)))
  }

  /** Swift's `optional == 0`: an absent value never equals 0. */
  function OptionalEqualsZero(o: Option<int>): (eq: bool)
    ensures eq <==> o == Some(0)
  {
    match o
    case None => false
    case Some(v) => v == 0
  }

  /** A button whose delegate exists and whose `side` handler answers 0. */
  predicate Vetoes(button: Option<ButtonView>, side: Side)
  {
    && button.Some?
    && button.value.delegate.Some?
    && Respond(HandlerFor(button.value.delegate.value, side)) == 0
  }

  /** `return 0` versus `return DefSubclassProc(...)`. */
  datatype Outcome = ReturnZero | DefaultProcessing

  /** The outcome together with the delegate handler that was called, if any. */
  datatype Routing = Routing(outcome: Outcome, consulted: Option<Side>)

  /** The decision for a button-down message of one side. */
  function RoutePress(button: Option<ButtonView>, side: Side): (r: Routing)
    ensures r.outcome == ReturnZero <==> Vetoes(button, side)
    ensures r.consulted.Some? <==> button.Some? && button.value.delegate.Some?
    ensures r.consulted.Some? ==> r.consulted.value == side
  {
    var answer := AskDelegate(button, side);
    Routing(
      if OptionalEqualsZero(answer) then ReturnZero else DefaultProcessing,
      if answer.Some? then Some(side) else None)
  }

  /**
   * The routing decision of `SwiftButtonProc` for message `uMsg` and the
   * button recovered from the subclass reference data (absent if the cast
   * fails).  The message is consumed exactly when it is a button-down whose
   * delegate handler for that side answers 0; a handler is called only for
   * its own message, and always when a delegate is there to answer.
   */
  function SwiftButtonProc(uMsg: Uint32, button: Option<ButtonView>): (r: Routing)
    ensures r.outcome == ReturnZero <==>
      (uMsg == WM_LBUTTONDOWN && Vetoes(button, Left)) || (uMsg == WM_RBUTTONDOWN && Vetoes(button, Right))
    ensures r.consulted.Some? ==>
      uMsg == PressMessage(r.consulted.value) && button.Some? && button.value.delegate.Some?
    ensures (uMsg == WM_LBUTTONDOWN || uMsg == WM_RBUTTONDOWN) && button.Some? && button.value.delegate.Some? ==>
      r.consulted.Some?
  {
    if uMsg == WM_LBUTTONDOWN then RoutePress(button, Left)
    else if uMsg == WM_RBUTTONDOWN then RoutePress(button, Right)
    else Routing(DefaultProcessing, None)
  }

  /** Any message other than the two button-downs goes to default processing untouched. */
  lemma OtherMessagesGoToDefault(uMsg: Uint32, button: Option<ButtonView>)
    requires uMsg != WM_LBUTTONDOWN && uMsg != WM_RBUTTONDOWN
    ensures SwiftButtonProc(uMsg, button) == Routing(DefaultProcessing, None)
  {
  }

  /** Without a button or without a delegate every message falls through and no handler runs. */
  lemma MissingDelegateFallsThrough(uMsg: Uint32, button: Option<ButtonView>)
    requires button.None? || button.value.delegate.None?
    ensures SwiftButtonProc(uMsg, button) == Routing(DefaultProcessing, None)
  {
  }

  /**
   * For a button-down of either side with a delegate present, that side's
   * handler is called, and a non-zero answer falls through to default processing.
   */
  lemma PressWithDelegate(side: Side, d: Delegate)
    ensures SwiftButtonProc(PressMessage(side), Some(ButtonView(Some(d)))).consulted == Some(side)
    ensures SwiftButtonProc(PressMessage(side), Some(ButtonView(Some(d)))).outcome == ReturnZero
      <==> Respond(HandlerFor(d, side)) == 0
  {
  }

  /** A handler the delegate does not override never suppresses default processing. */
  lemma InheritedHandlerNeverVetoes(uMsg: Uint32, d: Delegate, side: Side)
    requires HandlerFor(d, side) == Inherited
    requires uMsg == PressMessage(side)
    ensures SwiftButtonProc(uMsg, Some(ButtonView(Some(d)))).outcome == DefaultProcessing
  {
  }

  /** A delegate that overrides neither handler never suppresses anything. */
  lemma DefaultDelegateNeverVetoes(uMsg: Uint32)
    ensures SwiftButtonProc(uMsg, Some(ButtonView(Some(Delegate(Inherited, Inherited))))).outcome == DefaultProcessing
  {
  }
}
