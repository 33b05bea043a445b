/**
 The drag-selection overlay as a state machine.

 A `Selector` remembers whether the pointer is down and the two corners of
 the drag, `from` and `to`. Three pointer handlers move it between states;
 the listeners the application registered are invoked with the selector
 itself, from which they read the normalised corners. Here a listener is an
 opaque callback id, and each invocation is appended to `log` as a `Firing`
 that records which callback ran and the four corner values it could read.
 Drawing the selection rectangle on the overlay canvas is not modelled.
 */
module Selection {

  datatype Point = Point(x: real, y: real)

  const Origin: Point := Point(0.0, 0.0)

  /** A registered callback, known only by identity. */
  type Callback = nat

  /** What a listener reads from the selector: `startX`, `startY`, `endX`, `endY`. */
  datatype Context = Context(startX: real, startY: real, endX: real, endY: real)

  /** One invocation of a listener. */
  datatype Firing = Firing(callback: Callback, context: Context)

  datatype Selector = Selector(
    isPointerDown: bool,
    from: Point,
    to: Point,
    listeners: map<string, Callback>,
    log: seq<Firing>)

  /**
   The listener type that the pointer-up handler invokes. The application
   registers its zoom under this name, although it runs on release.
   */
  const ZoomType: string := "pointerdown"

  /** The listener type that the pointer-move handler invokes (the live preview). */
  const PreviewType: string := "pointermove"

  /** The state the constructor leaves: pointer up, both corners at the origin, no listeners. */
  function Init(): (r: Selector)
    ensures !r.isPointerDown && Settled(r)
    ensures |r.listeners| == 0 && |r.log| == 0
  {
    Selector(false, Origin, Origin, map[], [])
  }

  function Min(a: real, b: real): real {
    if a < b then a else b
  }

  function Max(a: real, b: real): real {
    if a < b then b else a
  }

  function StartX(s: Selector): (r: real)
    ensures r <= s.from.x && r <= s.to.x && (r == s.from.x || r == s.to.x)
  {
    Min(s.from.x, s.to.x)
  }

  function EndX(s: Selector): (r: real)
    ensures r >= s.from.x && r >= s.to.x && (r == s.from.x || r == s.to.x)
  {
    Max(s.from.x, s.to.x)
  }

  function StartY(s: Selector): (r: real)
    ensures r <= s.from.y && r <= s.to.y && (r == s.from.y || r == s.to.y)
  {
    Min(s.from.y, s.to.y)
  }

  function EndY(s: Selector): (r: real)
    ensures r >= s.from.y && r >= s.to.y && (r == s.from.y || r == s.to.y)
  {
    Max(s.from.y, s.to.y)
  }

  /** The corners a listener reads; they are ordered in every state. */
  function ContextOf(s: Selector): (c: Context)
    ensures c.startX <= c.endX && c.startY <= c.endY
  {
    Context(StartX(s), StartY(s), EndX(s), EndY(s))
  }

  /** The normalised corners do not depend on the direction of the drag. */
  lemma ContextIgnoresDirection(s: Selector)
    ensures ContextOf(s.(from := s.to, to := s.from)) == ContextOf(s)
  {
  }

  /** `addEventListener`: one callback per type, a later one replacing an earlier. */
  function AddEventListener(s: Selector, eventType: string, callback: Callback): (r: Selector)
    ensures r.listeners.Keys == s.listeners.Keys + {eventType}
    ensures r.listeners[eventType] == callback
    ensures forall t :: t in s.listeners && t != eventType ==> r.listeners[t] == s.listeners[t]
    ensures r.isPointerDown == s.isPointerDown && r.from == s.from && r.to == s.to && r.log == s.log
  {
    s.(listeners := s.listeners[eventType := callback])
  }

  /** Registering twice for the same type leaves only the second callback. */
  lemma ListenerReplaced(s: Selector, eventType: string, first: Callback, second: Callback)
    ensures AddEventListener(AddEventListener(s, eventType, first), eventType, second)
         == AddEventListener(s, eventType, second)
  {
  }

  /** Invoke the listener of `eventType`, if one is registered, with the state `s`. */
  function Notify(s: Selector, eventType: string): (r: Selector)
    ensures eventType in s.listeners ==> r.log == s.log + [Firing(s.listeners[eventType], ContextOf(s))]
    ensures eventType !in s.listeners ==> r.log == s.log
    ensures r.(log := s.log) == s
  {
    if eventType in s.listeners then
      s.(log := s.log + [Firing(s.listeners[eventType], ContextOf(s))])
    else
      s
  }

  /** `_onPointerDown`: press at `at`. The `to` corner is left as it was. */
  function OnPointerDown(s: Selector, at: Point): (r: Selector)
    ensures r.isPointerDown && r.from == at
    ensures r.to == s.to && r.listeners == s.listeners && r.log == s.log
  {
    s.(isPointerDown := true, from := at)
  }

  /**
   `_onPointerUp`: release. The zoom listener runs, on the state before the
   reset, unless the two corners coincide; then both corners return to the
   origin.
   */
  function OnPointerUp(s: Selector): (r: Selector)
    ensures !r.isPointerDown && r.from == Origin && r.to == Origin
    ensures r.listeners == s.listeners
    ensures ZoomType in s.listeners && s.from != s.to ==>
              r.log == s.log + [Firing(s.listeners[ZoomType], ContextOf(s))]
    ensures !(ZoomType in s.listeners && s.from != s.to) ==> r.log == s.log
  {
    var isEqual := s.from.x == s.to.x && s.from.y == s.to.y;
    var notified := if !isEqual then Notify(s, ZoomType) else s;
    notified.(isPointerDown := false, from := Origin, to := Origin)
  }

  /**
   `_onPointerMove`: ignored while the pointer is up; otherwise `to` follows
   the pointer and the preview listener runs on the updated state.
   */
  function OnPointerMove(s: Selector, at: Point): (r: Selector)
    ensures !s.isPointerDown ==> r == s
    ensures s.isPointerDown ==>
              && r.isPointerDown && r.from == s.from && r.to == at && r.listeners == s.listeners
              && (PreviewType in s.listeners ==>
                    r.log == s.log + [Firing(s.listeners[PreviewType], ContextOf(r))])
              && (PreviewType !in s.listeners ==> r.log == s.log)
  {
    if !s.isPointerDown then
      s
    else
      Notify(s.(to := at), PreviewType)
  }

  /** The inputs the selector reacts to. */
  datatype Event =
    | PointerDown(at: Point)
    | PointerUp
    | PointerMove(at: Point)
    | Listen(eventType: string, callback: Callback)

  function Step(s: Selector, e: Event): (r: Selector)
    ensures |s.log| <= |r.log| <= |s.log| + 1
    ensures r.log[..|s.log|] == s.log
    ensures e.Listen? || e.PointerDown? ==> r.log == s.log
  {
    match e
    case PointerDown(at) => OnPointerDown(s, at)
    case PointerUp => OnPointerUp(s)
    case PointerMove(at) => OnPointerMove(s, at)
    case Listen(t, cb) => AddEventListener(s, t, cb)
  }

  function Run(s: Selector, es: seq<Event>): Selector
    decreases |es|
  {
    if |es| == 0 then s else Run(Step(s, es[0]), es[1..])
  }

  /** How many of the events can invoke a listener: releases and moves. */
  function Notifying(es: seq<Event>): nat {
    if |es| == 0 then 0
    else (if es[0].PointerUp? || es[0].PointerMove? then 1 else 0) + Notifying(es[1..])
  }

  /**
   The log is append-only, and each release or move adds at most one entry:
   at most one listener ever fires per event.
   */
  lemma {:induction false} LogAppendOnly(s: Selector, es: seq<Event>)
    ensures |s.log| <= |Run(s, es).log| <= |s.log| + Notifying(es)
    ensures Run(s, es).log[..|s.log|] == s.log
    decreases |es|
  {
    if |es| > 0 {
      var t := Step(s, es[0]);
      LogAppendOnly(t, es[1..]);
      assert Run(s, es).log[..|t.log|] == t.log;
      assert Run(s, es).log[..|s.log|] == t.log[..|s.log|];
    }
  }

  /** While the pointer is up, both corners sit at the origin. */
  predicate Settled(s: Selector) {
    !s.isPointerDown ==> s.from == Origin && s.to == Origin
  }

  lemma StepSettled(s: Selector, e: Event)
    requires Settled(s)
    ensures Settled(Step(s, e))
  {
  }

  /** Every state reachable from the constructor's is settled. */
  lemma {:induction false} RunSettled(s: Selector, es: seq<Event>)
    requires Settled(s)
    ensures Settled(Run(s, es))
    decreases |es|
  {
    if |es| > 0 {
      StepSettled(s, es[0]);
      RunSettled(Step(s, es[0]), es[1..]);
    }
  }

  lemma ReachableSettled(es: seq<Event>)
    ensures Settled(Run(Init(), es))
  {
    RunSettled(Init(), es);
  }

  /**
   A press at `at` and a release with no move in between, from a settled
   state with the pointer up: since `to` still holds the origin, the zoom
   listener fires, with the rectangle spanned by the origin and `at`,
   unless the press was exactly at the origin.
   */
  lemma ClickWithoutMove(s: Selector, at: Point)
    requires Settled(s) && !s.isPointerDown
    ensures var r := OnPointerUp(OnPointerDown(s, at));
      && (|r.log| == |s.log| + 1 <==> ZoomType in s.listeners && at != Origin)
      && (|r.log| == |s.log| + 1 ==>
            r.log[|s.log|] == Firing(s.listeners[ZoomType],
              Context(Min(0.0, at.x), Min(0.0, at.y), Max(0.0, at.x), Max(0.0, at.y))))
  {
  }

  /**
   Press, drag to `at`, release: the zoom listener reads exactly the corners
   the preview listener read on the last move.
   */
  lemma ZoomSeesLastPreview(s: Selector, at: Point)
    requires s.isPointerDown
    requires PreviewType in s.listeners && ZoomType in s.listeners
    requires s.from != at
    ensures var m := OnPointerMove(s, at);
      var u := OnPointerUp(m);
      && |m.log| == |s.log| + 1 && |u.log| == |m.log| + 1
      && u.log[|m.log|].context == m.log[|s.log|].context
      && u.log[|m.log|].callback == s.listeners[ZoomType]
  {
  }
}
