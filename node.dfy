/** One station of the CSMA/CD simulation: its four protocol states, its
    backoff countdown, and the transition applied to it on every tick.

    Every `Math.random()` call of the original is an explicit input here:
    a `Draws` value carries the collision coin and the backoff time a node
    may consume during one tick. */
module CsmaNode {

  /** Exclusive upper bound of a backoff draw: a countdown starts at one of 0..9. */
  const MaxBackoffTime: int := 10

  datatype Option<T> = None | Some(value: T)

  datatype NodeState = Idle | Transmitting | Backoff | Collision

  /** The random inputs of one tick for one node: whether the transmission
      collides (the `< 0.2` coin) and the backoff time drawn if a countdown
      is (re)started (the `(int)(Math.random() * MAX_BACKOFF_TIME)` draw). */
  datatype Draws = Draws(collided: bool, backoff: int)
  {
    /** The draw lies in the range the random source produces. */
    predicate InRange() { 0 <= backoff < MaxBackoffTime }
  }

  /** The observable value of a node: identity, state and countdown. */
  datatype NodeView = NodeView(id: int, state: NodeState, backoffTime: int)

  /** What a transition announces to the log. */
  datatype Event =
    | TransmissionStarted(id: int)
    | BackoffStarted(id: int, time: int)
    | CollisionDetected(id: int, time: int)
    | TransmittedSuccessfully(id: int)

  /** The counter invariant: the countdown is in bounds, and it is zero
      whenever no countdown is running. */
  predicate Inv(v: NodeView) {
    && 0 <= v.backoffTime < MaxBackoffTime
    && (v.state == Idle || v.state == Transmitting ==> v.backoffTime == 0)
  }

  /** The node a freshly constructed `Node(id)` is. */
  function NewNode(id: int): (v: NodeView)
    ensures v.id == id && v.state == Idle && Inv(v)
  {
    NodeView(id, Idle, 0)
  }

  /** One tick of `update()` on a node whose value is `v`. */
  function Step(v: NodeView, d: Draws): (r: NodeView)
    ensures r.id == v.id
    ensures Inv(v) && d.InRange() ==> Inv(r)
  {
    match v.state
    case Idle => v
    case Transmitting =>
      if d.collided then v.(state := Collision, backoffTime := d.backoff)
      else v.(state := Idle)
    case Backoff =>
      if v.backoffTime == 0 then v.(state := Transmitting)
      else v.(backoffTime := v.backoffTime - 1)
    case Collision =>
      if v.backoffTime == 0 then v.(state := Backoff, backoffTime := d.backoff)
      else v.(backoffTime := v.backoffTime - 1)
  }

  /** The event `e` tells the log that node `w.id` has just entered `w`. */
  predicate Announces(e: Event, w: NodeView) {
    match e
    case TransmissionStarted(id) => id == w.id && w.state == Transmitting
    case BackoffStarted(id, time) => id == w.id && w.state == Backoff && time == w.backoffTime
    case CollisionDetected(id, time) => id == w.id && w.state == Collision && time == w.backoffTime
    case TransmittedSuccessfully(id) => id == w.id && w.state == Idle
  }

  /** The event one tick of `update()` on `v` logs, if any. */
  function Emitted(v: NodeView, d: Draws): (e: Option<Event>)
    ensures e.Some? <==> Step(v, d).state != v.state
    ensures e.Some? ==> Announces(e.value, Step(v, d))
  {
    match v.state
    case Idle => None
    case Transmitting =>
      if d.collided then Some(CollisionDetected(v.id, d.backoff))
      else Some(TransmittedSuccessfully(v.id))
    case Backoff =>
      if v.backoffTime == 0 then Some(TransmissionStarted(v.id)) else None
    case Collision =>
      if v.backoffTime == 0 then Some(BackoffStarted(v.id, d.backoff)) else None
  }

  /** The protocol's transition table, stated as a relation between a node
      before and after one tick, with the random draws left open. */
  ghost predicate Allowed(v: NodeView, r: NodeView) {
    && r.id == v.id
    && match v.state
       case Idle => r == v
       case Transmitting =>
         || (r.state == Collision && 0 <= r.backoffTime < MaxBackoffTime)
         || r == v.(state := Idle)
       case Backoff =>
         if v.backoffTime == 0 then r == v.(state := Transmitting)
         else r == v.(backoffTime := v.backoffTime - 1)
       case Collision =>
         if v.backoffTime == 0 then r.state == Backoff && 0 <= r.backoffTime < MaxBackoffTime
         else r == v.(backoffTime := v.backoffTime - 1)
  }

  /** Every tick, whatever it draws, moves along the transition table. */
  lemma StepAllowed(v: NodeView, d: Draws)
    requires d.InRange()
    ensures Allowed(v, Step(v, d))
  {
  }

  /** Every move of the transition table is taken by some choice of draws. */
  lemma AllowedByStep(v: NodeView, r: NodeView)
    requires Allowed(v, r)
    ensures exists d: Draws :: d.InRange() && Step(v, d) == r
  {
    var d := Draws(false, 0);
    if v.state == Transmitting && r.state == Collision {
      d := Draws(true, r.backoffTime);
    } else if v.state == Collision && v.backoffTime == 0 {
      d := Draws(false, r.backoffTime);
    }
    assert d.InRange() && Step(v, d) == r;
  }

  /** `Run(v, ds)` is the node after one tick per element of `ds`, in order. */
  function Run(v: NodeView, ds: seq<Draws>): (r: NodeView)
    ensures r.id == v.id
    decreases |ds|
  {
    if ds == [] then v else Step(Run(v, ds[..|ds| - 1]), ds[|ds| - 1])
  }

  /** The counter invariant holds after any number of ticks. */
  lemma {:induction false} RunPreservesInv(v: NodeView, ds: seq<Draws>)
    requires Inv(v)
    requires forall i :: 0 <= i < |ds| ==> ds[i].InRange()
    ensures Inv(Run(v, ds))
    decreases |ds|
  {
    if ds != [] {
      RunPreservesInv(v, ds[..|ds| - 1]);
    }
  }

  /** A running countdown of `k` stays in its state for `k` ticks, losing one
      per tick, whatever is drawn meanwhile. */
  lemma {:induction false} CountdownStays(v: NodeView, ds: seq<Draws>)
    requires v.state == Backoff || v.state == Collision
    requires |ds| <= v.backoffTime
    ensures Run(v, ds) == v.(backoffTime := v.backoffTime - |ds|)
    decreases |ds|
  {
    if ds != [] {
      CountdownStays(v, ds[..|ds| - 1]);
    }
  }

  /** On tick `k + 1` a countdown of `k` ends in a state change: a backoff
      retransmits, a collision starts a backoff with the last draw. */
  lemma CountdownEnds(v: NodeView, ds: seq<Draws>)
    requires v.state == Backoff || v.state == Collision
    requires 0 <= v.backoffTime && |ds| == v.backoffTime + 1
    ensures v.state == Backoff ==>
      Run(v, ds) == v.(state := Transmitting, backoffTime := 0)
    ensures v.state == Collision ==>
      Run(v, ds) == v.(state := Backoff, backoffTime := ds[|ds| - 1].backoff)
  {
    CountdownStays(v, ds[..|ds| - 1]);
  }

  /** A station: `update()` applies one tick of the protocol to it. */
  class Node {
    const id: int
    var state: NodeState
    var backoffTime: int

    function View(): NodeView
      reads this
    {
      NodeView(id, state, backoffTime)
    }

    constructor (id: int)
      ensures View() == NewNode(id)
    {
      this.id := id;
      state := Idle;
      backoffTime := 0;
    }

    method StartTransmission() returns (e: Event)
      modifies this
      ensures state == Transmitting && backoffTime == old(backoffTime)
      ensures e == TransmissionStarted(id)
    {
      state := Transmitting;
      e := TransmissionStarted(id);
    }

    /** `draw` is the random backoff time. */
    method StartBackoff(draw: int) returns (e: Event)
      modifies this
      ensures state == Backoff && backoffTime == draw
      ensures e == BackoffStarted(id, draw)
    {
      state := Backoff;
      backoffTime := draw;
      e := BackoffStarted(id, backoffTime);
    }

    /** `draw` is the random backoff time. */
    method HandleCollision(draw: int) returns (e: Event)
      modifies this
      ensures state == Collision && backoffTime == draw
      ensures e == CollisionDetected(id, draw)
    {
      state := Collision;
      backoffTime := draw;
      e := CollisionDetected(id, backoffTime);
    }

    method HandleSuccessfulTransmission() returns (e: Event)
      modifies this
      ensures state == Idle && backoffTime == old(backoffTime)
      ensures e == TransmittedSuccessfully(id)
    {
      state := Idle;
      e := TransmittedSuccessfully(id);
    }

    method Update(d: Draws) returns (e: Option<Event>)
      modifies this
      ensures View() == Step(old(View()), d)
      ensures e == Emitted(old(View()), d)
    {
      match state
      case Idle =>
        e := None;
      case Transmitting =>
        var ev;
        if d.collided {
          ev := HandleCollision(d.backoff);
        } else {
          ev := HandleSuccessfulTransmission();
        }
        e := Some(ev);
      case Backoff =>
        if backoffTime == 0 {
          var ev := StartTransmission();
          e := Some(ev);
        } else {
          backoffTime := backoffTime - 1;
          e := None;
        }
      case Collision =>
        if backoffTime == 0 {
          var ev := StartBackoff(d.backoff);
          e := Some(ev);
        } else {
          backoffTime := backoffTime - 1;
          e := None;
        }
    }
  }
}
