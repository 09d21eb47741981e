/**
  The guarded subscription loop (graph/subscription_stream.go) as a state machine.

  A state holds the two PubSub channels, the cancellable context, the clock, the answer that the
  authorisation would give now, the loop's own variables and the place the loop has reached.
  Publishers, the clock, the reader and the access rules move on their own between any two steps
  of the loop; where Go's `select` may choose, every choice is a step.
 */
module SubscriptionStream {
  import opened Sequences
  import opened Wrappers

  /** A value from the revocation topic; anything but a RoomAccessChanged is `Unreadable`. */
  datatype Signal = RoomAccessChanged(userIDs: seq<int>) | Unreadable

  /** A value from the data topic: of the subscribed type, or of another one. */
  datatype Data<S> = Payload(payload: S) | Foreign

  datatype Config<!S, T> = Config(
    userID: int,
    authorizes: bool,            // guard.authorize != nil
    revokes: bool,               // guard.revokeTopic != ""
    convert: S -> Option<T>,     // None: not kept
    interval: int)               // accessRecheckInterval
  {
    predicate Guarded() { authorizes && revokes }
  }

  /** What the loop goes on with after a successful recheck. */
  datatype Resume<T> = ToSelect | ToDrain(held: T) | ToSend(held: T)

  datatype Place<T> =
    | Selecting
    | Checking(resume: Resume<T>)                 // authorize has been called
    | Stamping(resume: Resume<T>, decided: int)   // authorize said yes, about to set lastChecked
    | Draining(held: T)
    | AgeCheck(held: T)
    | Sending(held: T)
    | ClosingOut
    | LeavingTopic
    | LeavingRevokeTopic
    | Done

  /**
    The channels, the context, the clock and the access rules; `arrived` is all that entered the data
    channel, `read` all that the subscriber has taken out of `out`.
   */
  datatype World<S, T> = World(
    now: int,
    allowed: bool,               // what authorize would answer
    ctxDone: bool,
    queue: seq<Data<S>>, queueClosed: bool,
    signals: seq<Signal>, signalsClosed: bool,
    buffer: seq<T>,              // `out`, capacity 1
    arrived: seq<Data<S>>, read: seq<T>)

  /** What the loop has done to the outside: the values sent, and the deferred calls made. */
  datatype Deeds<T> = Deeds(sent: seq<T>, outClosures: nat, topicLeft: nat, revokeTopicLeft: nat)

  datatype State<S, T> = State(
    world: World<S, T>,
    place: Place<T>,
    revokedNil: bool,            // the local variable `revoked` is nil
    lastChecked: int,
    decidedAt: int,              // when the check behind lastChecked was decided (at first: the resolver's entry check)
    deeds: Deeds<T>)

  const QUEUE_CAPACITY := 64

  /** RoomAccessChanged.affects; an empty list means everyone. */
  predicate Concerns(sig: Signal, userID: int) {
    sig.Unreadable? || sig.userIDs == [] || userID in sig.userIDs
  }

  method Affects(userIDs: seq<int>, userID: int) returns (r: bool)
    ensures r <==> userIDs == [] || userID in userIDs
    ensures r == Concerns(RoomAccessChanged(userIDs), userID)
  {
    if |userIDs| == 0 {
      return true;
    }
    for i := 0 to |userIDs|
      invariant userID !in userIDs[..i]
    {
      if userIDs[i] == userID {
        return true;
      }
    }
    return false;
  }

  function Kept<S, T>(c: Config<S, T>, d: Data<S>): Option<T> {
    if d.Foreign? then None else c.convert(d.payload)
  }

  // ----- Steps

  /** Both topics are subscribed and then the start is stamped: values and signals may be waiting already. */
  ghost predicate Init<S, T>(c: Config<S, T>, s: State<S, T>) {
    && s.world.queue == s.world.arrived && |s.world.queue| <= QUEUE_CAPACITY
    && |s.world.signals| <= (if c.Guarded() then QUEUE_CAPACITY else 0)
    && s.world.buffer == [] && s.world.read == [] && s.deeds.sent == []
    && !s.world.queueClosed && !s.world.signalsClosed
    && s.place == Selecting && s.revokedNil == !c.Guarded()
    && s.decidedAt <= s.lastChecked == s.world.now
    && s.deeds.outClosures == s.deeds.topicLeft == s.deeds.revokeTopicLeft == 0
  }

  datatype Outside<S> =
    | Tick(time: int)
    | SetAllowed(allow: bool)
    | Cancel
    | Publish(data: Data<S>)
    | Signal(sig: Signal)
    | CloseQueue
    | CloseSignals
    | Read

  /** What moves in the world outside. A full channel drops what is published; a channel that was left takes nothing. */
  ghost predicate WorldStep<S, T>(c: Config<S, T>, w: World<S, T>, w': World<S, T>, d: Deeds<T>, e: Outside<S>) {
    match e
    case Tick(time) => w.now <= time && w' == w.(now := time)
    case SetAllowed(allow) => w' == w.(allowed := allow)
    case Cancel => w' == w.(ctxDone := true)
    case Publish(data) =>
      && !w.queueClosed && d.topicLeft == 0
      && w' == if |w.queue| < QUEUE_CAPACITY then w.(queue := w.queue + [data], arrived := w.arrived + [data]) else w
    case Signal(sig) =>
      && c.Guarded() && !w.signalsClosed && d.revokeTopicLeft == 0
      && w' == if |w.signals| < QUEUE_CAPACITY then w.(signals := w.signals + [sig]) else w
    case CloseQueue => w' == w.(queueClosed := true)
    case CloseSignals => w' == w.(signalsClosed := true)
    case Read => w.buffer != [] && w' == w.(buffer := w.buffer[1..], read := w.read + [w.buffer[0]])
  }

  /** Everything that is not the loop leaves the loop where it is. */
  ghost predicate OutsideStep<S, T>(c: Config<S, T>, s: State<S, T>, s': State<S, T>, e: Outside<S>) {
    s' == s.(world := s'.world) && WorldStep(c, s.world, s'.world, s.deeds, e)
  }

  datatype Choice =
    | ContextDone
    | TakeSignal
    | SignalsGone
    | TakeData
    | QueueGone
    | Proceed

  function AfterResume<T>(r: Resume<T>): Place<T> {
    match r
    case ToSelect => Selecting
    case ToDrain(v) => Draining(v)
    case ToSend(v) => Sending(v)
  }

  /** handleSignal: an unconcerned signal is skipped, any other forces a recheck. */
  function Handle<S, T>(c: Config<S, T>, s: State<S, T>, back: Resume<T>): State<S, T>
    requires s.world.signals != []
  {
    var rest := s.(world := s.world.(signals := s.world.signals[1..]));
    if Concerns(s.world.signals[0], c.userID) then rest.(place := Checking(back)) else rest.(place := AfterResume(back))
  }

  /** The outer select. */
  ghost predicate SelectStep<S, T>(c: Config<S, T>, s: State<S, T>, s': State<S, T>, choice: Choice)
    requires s.place.Selecting?
  {
    match choice
    case ContextDone => s.world.ctxDone && s' == s.(place := ClosingOut)
    case TakeSignal => !s.revokedNil && s.world.signals != [] && s' == Handle(c, s, ToSelect)
    case SignalsGone => !s.revokedNil && s.world.signals == [] && s.world.signalsClosed && s' == s.(revokedNil := true)
    case TakeData => s.world.queue != [] && s' == Received(c, s)
    case QueueGone => s.world.queue == [] && s.world.queueClosed && s' == s.(place := ClosingOut)
    case Proceed => false
  }

  /** The data case: a value of another type, or one not kept, is skipped; a kept one is held. */
  function Received<S, T>(c: Config<S, T>, s: State<S, T>): State<S, T>
    requires s.world.queue != []
  {
    var place := match Kept(c, s.world.queue[0])
      case None => Selecting
      case Some(v) => if s.revokedNil then AgeCheck(v) else Draining(v);
    s.(world := s.world.(queue := s.world.queue[1..]), place := place)
  }

  /** drainSignals: its select has a default, taken only when no signal is waiting. */
  ghost predicate DrainStep<S, T>(c: Config<S, T>, s: State<S, T>, s': State<S, T>, choice: Choice)
    requires s.place.Draining?
  {
    match choice
    case TakeSignal => s.world.signals != [] && s' == Handle(c, s, ToDrain(s.place.held))
    case SignalsGone =>
      s.world.signals == [] && s.world.signalsClosed && s' == s.(revokedNil := true, place := AgeCheck(s.place.held))
    case Proceed => s.world.signals == [] && !s.world.signalsClosed && s' == s.(place := AgeCheck(s.place.held))
    case _ => false
  }

  /** The final select: send, or give up because the context is done. */
  ghost predicate SendStep<S, T>(s: State<S, T>, s': State<S, T>, choice: Choice)
    requires s.place.Sending?
  {
    match choice
    case Proceed =>
      && |s.world.buffer| < 1
      && s' == s.(world := s.world.(buffer := s.world.buffer + [s.place.held]),
                  deeds := s.deeds.(sent := s.deeds.sent + [s.place.held]),
                  place := Selecting)
    case ContextDone => s.world.ctxDone && s' == s.(place := ClosingOut)
    case _ => false
  }

  /** The places with one way on: the two halves of recheck, the age test and the deferred calls. */
  function Straight<S, T>(c: Config<S, T>, s: State<S, T>): State<S, T>
    requires !s.place.Selecting? && !s.place.Draining? && !s.place.Sending? && !s.place.Done?
  {
    match s.place
    case Checking(resume) => s.(place := if s.world.allowed then Stamping(resume, s.world.now) else ClosingOut)
    case Stamping(resume, decided) => s.(place := AfterResume(resume), lastChecked := s.world.now, decidedAt := decided)
    case AgeCheck(v) =>
      s.(place := if c.authorizes && s.world.now - s.lastChecked >= c.interval then Checking(ToSend(v)) else Sending(v))
    case ClosingOut => s.(deeds := s.deeds.(outClosures := s.deeds.outClosures + 1), place := LeavingTopic)
    case LeavingTopic =>
      s.(deeds := s.deeds.(topicLeft := s.deeds.topicLeft + 1),
         place := if c.Guarded() then LeavingRevokeTopic else Done)
    case LeavingRevokeTopic =>
      s.(deeds := s.deeds.(revokeTopicLeft := s.deeds.revokeTopicLeft + 1), place := Done)
  }

  /** One atomic step of the goroutine. */
  ghost predicate LoopStep<S, T>(c: Config<S, T>, s: State<S, T>, s': State<S, T>, choice: Choice) {
    if s.place.Selecting? then SelectStep(c, s, s', choice)
    else if s.place.Draining? then DrainStep(c, s, s', choice)
    else if s.place.Sending? then SendStep(s, s', choice)
    else !s.place.Done? && choice.Proceed? && s' == Straight(c, s)
  }

  datatype Label<S> = OfOutside(e: Outside<S>) | OfLoop(choice: Choice)

  ghost predicate Step<S, T>(c: Config<S, T>, s: State<S, T>, s': State<S, T>, l: Label<S>) {
    match l
    case OfOutside(e) => OutsideStep(c, s, s', e)
    case OfLoop(choice) => LoopStep(c, s, s', choice)
  }

  /** A run: states and the labels of the steps between them. */
  ghost predicate Run<S, T>(c: Config<S, T>, states: seq<State<S, T>>, labels: seq<Label<S>>) {
    && |states| == |labels| + 1
    && forall i :: 0 <= i < |labels| ==> Step(c, states[i], states[i + 1], labels[i])
  }

  // ----- Delivery order and clean-up, in every run

  /** What a fault-free subscriber would see of the inputs `ds`: the kept ones, converted, in order. */
  function Deliverable<S, T>(c: Config<S, T>, ds: seq<Data<S>>): seq<T> {
    if ds == [] then [] else
      (match Kept(c, ds[0]) case None => [] case Some(v) => [v]) + Deliverable(c, ds[1..])
  }

  lemma {:induction false} DeliverableOfConcat<S, T>(c: Config<S, T>, a: seq<Data<S>>, b: seq<Data<S>>)
    ensures Deliverable(c, a + b) == Deliverable(c, a) + Deliverable(c, b)
  {
    if a == [] {
      assert a + b == b;
    } else {
      assert (a + b)[1..] == a[1..] + b;
      DeliverableOfConcat(c, a[1..], b);
    }
  }

  function OfResume<T>(r: Resume<T>): seq<T> {
    if r.ToSelect? then [] else [r.held]
  }

  /** The value the loop holds but has not sent. */
  function InHand<T>(p: Place<T>): seq<T> {
    match p
    case Checking(r) => OfResume(r)
    case Stamping(r, _) => OfResume(r)
    case Draining(v) => [v]
    case AgeCheck(v) => [v]
    case Sending(v) => [v]
    case _ => []
  }

  predicate Leaving<T>(p: Place<T>) {
    p.ClosingOut? || p.LeavingTopic? || p.LeavingRevokeTopic? || p.Done?
  }

  /** Sent, held and queued values are together exactly what has arrived; once leaving, a prefix of it was sent. */
  ghost predicate Ordered<S, T>(c: Config<S, T>, s: State<S, T>) {
    if Leaving(s.place) then s.deeds.sent <= Deliverable(c, s.world.arrived)
    else s.deeds.sent + InHand(s.place) + Deliverable(c, s.world.queue) == Deliverable(c, s.world.arrived)
  }

  /** The deferred calls have run as far as the place says, and no channel holds more than it can. */
  ghost predicate Tidy<S, T>(c: Config<S, T>, s: State<S, T>) {
    && s.deeds.outClosures == (if Leaving(s.place) && !s.place.ClosingOut? then 1 else 0)
    && s.deeds.topicLeft == (if s.place.LeavingRevokeTopic? || s.place.Done? then 1 else 0)
    && s.deeds.revokeTopicLeft == (if s.place.Done? && c.Guarded() then 1 else 0)
    && (s.place.LeavingRevokeTopic? ==> c.Guarded())
    && |s.world.buffer| <= 1 && |s.world.queue| <= QUEUE_CAPACITY && |s.world.signals| <= QUEUE_CAPACITY
  }

  /** A check is decided before it is stamped, and both are past. */
  ghost predicate Timely<S, T>(s: State<S, T>) {
    && s.decidedAt <= s.lastChecked <= s.world.now
    && (s.place.Stamping? ==> s.decidedAt <= s.place.decided <= s.world.now)
  }

  ghost predicate Inv<S, T>(c: Config<S, T>, s: State<S, T>) {
    Ordered(c, s) && Tidy(c, s) && Timely(s)
  }

  lemma OutsideKeepsOrder<S, T>(c: Config<S, T>, s: State<S, T>, s': State<S, T>, e: Outside<S>)
    requires Ordered(c, s) && OutsideStep(c, s, s', e)
    ensures Ordered(c, s')
  {
    if e.Publish? && s' != s {
      DeliverableOfConcat(c, s.world.queue, [e.data]);
      DeliverableOfConcat(c, s.world.arrived, [e.data]);
      Associative(s.deeds.sent + InHand(s.place), Deliverable(c, s.world.queue), Deliverable(c, [e.data]));
    }
  }

  /** Giving up what is held leaves a prefix. */
  lemma GivingUpKeepsOrder<S, T>(c: Config<S, T>, s: State<S, T>)
    requires Ordered(c, s)
    ensures s.deeds.sent <= Deliverable(c, s.world.arrived)
  {
    if !Leaving(s.place) {
      assert s.deeds.sent <= s.deeds.sent + InHand(s.place) + Deliverable(c, s.world.queue);
    }
  }

  lemma ReceivedKeepsOrder<S, T>(c: Config<S, T>, s: State<S, T>)
    requires Ordered(c, s) && s.place.Selecting? && s.world.queue != []
    ensures Ordered(c, Received(c, s))
  {
    var head := match Kept(c, s.world.queue[0]) case None => [] case Some(v) => [v];
    assert InHand(Received(c, s).place) == head;
    assert InHand(s.place) == [] && s.deeds.sent + [] == s.deeds.sent;
    Associative(s.deeds.sent, head, Deliverable(c, s.world.queue[1..]));
  }

  lemma SentKeepsOrder<S, T>(c: Config<S, T>, s: State<S, T>, s': State<S, T>, choice: Choice)
    requires Ordered(c, s) && s.place.Sending? && SendStep(s, s', choice)
    ensures Ordered(c, s')
  {
    GivingUpKeepsOrder(c, s);
    assert s.deeds.sent + [s.place.held] + [] == s.deeds.sent + [s.place.held];
  }

  lemma StraightKeepsOrder<S, T>(c: Config<S, T>, s: State<S, T>)
    requires Ordered(c, s) && !s.place.Selecting? && !s.place.Draining? && !s.place.Sending? && !s.place.Done?
    ensures Ordered(c, Straight(c, s))
  {
    GivingUpKeepsOrder(c, s);
    assert !Leaving(Straight(c, s).place) ==> InHand(Straight(c, s).place) == InHand(s.place);
  }

  lemma SelectKeepsOrder<S, T>(c: Config<S, T>, s: State<S, T>, s': State<S, T>, choice: Choice)
    requires Ordered(c, s) && s.place.Selecting? && SelectStep(c, s, s', choice)
    ensures Ordered(c, s')
  {
    match choice
    case TakeData => ReceivedKeepsOrder(c, s);
    case ContextDone => GivingUpKeepsOrder(c, s);
    case QueueGone => GivingUpKeepsOrder(c, s);
    case _ =>
  }

  lemma DrainKeepsOrder<S, T>(c: Config<S, T>, s: State<S, T>, s': State<S, T>, choice: Choice)
    requires Ordered(c, s) && s.place.Draining? && DrainStep(c, s, s', choice)
    ensures Ordered(c, s')
  {
    assert InHand(s'.place) == InHand(s.place);
  }

  lemma LoopKeepsOrder<S, T>(c: Config<S, T>, s: State<S, T>, s': State<S, T>, choice: Choice)
    requires Ordered(c, s) && LoopStep(c, s, s', choice)
    ensures Ordered(c, s')
  {
    if s.place.Selecting? {
      SelectKeepsOrder(c, s, s', choice);
    } else if s.place.Draining? {
      DrainKeepsOrder(c, s, s', choice);
    } else if s.place.Sending? {
      SentKeepsOrder(c, s, s', choice);
    } else {
      StraightKeepsOrder(c, s);
    }
  }

  lemma OutsideKeepsTidy<S, T>(c: Config<S, T>, s: State<S, T>, s': State<S, T>, e: Outside<S>)
    requires Tidy(c, s) && OutsideStep(c, s, s', e)
    ensures Tidy(c, s')
  {
  }

  lemma StraightKeepsTidy<S, T>(c: Config<S, T>, s: State<S, T>)
    requires Tidy(c, s) && !s.place.Selecting? && !s.place.Draining? && !s.place.Sending? && !s.place.Done?
    ensures Tidy(c, Straight(c, s))
  {
  }

  lemma LoopKeepsTidy<S, T>(c: Config<S, T>, s: State<S, T>, s': State<S, T>, choice: Choice)
    requires Tidy(c, s) && LoopStep(c, s, s', choice)
    ensures Tidy(c, s')
  {
    if !s.place.Selecting? && !s.place.Draining? && !s.place.Sending? {
      StraightKeepsTidy(c, s);
    } else {
      assert s'.deeds == s.deeds.(sent := s'.deeds.sent);
    }
  }

  lemma OutsideKeepsTimely<S, T>(c: Config<S, T>, s: State<S, T>, s': State<S, T>, e: Outside<S>)
    requires Timely(s) && OutsideStep(c, s, s', e)
    ensures Timely(s')
  {
  }

  lemma LoopKeepsTimely<S, T>(c: Config<S, T>, s: State<S, T>, s': State<S, T>, choice: Choice)
    requires Timely(s) && LoopStep(c, s, s', choice)
    ensures Timely(s')
  {
    assert s'.world.now == s.world.now;
  }

  lemma InvAtStart<S, T>(c: Config<S, T>, s: State<S, T>)
    requires Init(c, s)
    ensures Inv(c, s)
  {
    assert InHand(s.place) == [] && [] + [] + Deliverable(c, s.world.queue) == Deliverable(c, s.world.arrived);
  }

  lemma OutsideKeepsInv<S, T>(c: Config<S, T>, s: State<S, T>, s': State<S, T>, e: Outside<S>)
    requires Inv(c, s) && OutsideStep(c, s, s', e)
    ensures Inv(c, s')
  {
    OutsideKeepsOrder(c, s, s', e);
    OutsideKeepsTidy(c, s, s', e);
    OutsideKeepsTimely(c, s, s', e);
  }

  lemma LoopKeepsInv<S, T>(c: Config<S, T>, s: State<S, T>, s': State<S, T>, choice: Choice)
    requires Inv(c, s) && LoopStep(c, s, s', choice)
    ensures Inv(c, s')
  {
    LoopKeepsOrder(c, s, s', choice);
    LoopKeepsTidy(c, s, s', choice);
    LoopKeepsTimely(c, s, s', choice);
  }

  lemma StepKeepsInv<S, T>(c: Config<S, T>, s: State<S, T>, s': State<S, T>, l: Label<S>)
    requires Inv(c, s) && Step(c, s, s', l)
    ensures Inv(c, s')
  {
    match l
    case OfOutside(e) => OutsideKeepsInv(c, s, s', e);
    case OfLoop(choice) => LoopKeepsInv(c, s, s', choice);
  }

  lemma {:induction false} InvInRun<S, T>(c: Config<S, T>, states: seq<State<S, T>>, labels: seq<Label<S>>, i: nat)
    requires Run(c, states, labels) && Init(c, states[0]) && i < |states|
    ensures Inv(c, states[i])
  {
    if i == 0 {
      InvAtStart(c, states[0]);
    } else {
      InvInRun(c, states, labels, i - 1);
      StepKeepsInv(c, states[i - 1], states[i], labels[i - 1]);
    }
  }

  /** What was sent is always a prefix of the kept inputs, converted, in arrival order. */
  lemma SentIsPrefixOfArrivals<S, T>(c: Config<S, T>, states: seq<State<S, T>>, labels: seq<Label<S>>, i: nat)
    requires Run(c, states, labels) && Init(c, states[0]) && i < |states|
    ensures states[i].deeds.sent <= Deliverable(c, states[i].world.arrived)
  {
    InvInRun(c, states, labels, i);
    GivingUpKeepsOrder(c, states[i]);
  }

  /** Nothing is sent after `out` is closed, and a finished loop has closed and left everything once. */
  lemma FinishedIsCleanedUp<S, T>(c: Config<S, T>, states: seq<State<S, T>>, labels: seq<Label<S>>, i: nat)
    requires Run(c, states, labels) && Init(c, states[0]) && i < |states|
    ensures states[i].deeds.outClosures <= 1 && states[i].deeds.topicLeft <= 1 && states[i].deeds.revokeTopicLeft <= 1
    ensures states[i].place.Done? ==>
              states[i].deeds.outClosures == 1 && states[i].deeds.topicLeft == 1
              && states[i].deeds.revokeTopicLeft == if c.Guarded() then 1 else 0
    ensures i + 1 < |states| && states[i].deeds.outClosures == 1 ==> states[i + 1].deeds.sent == states[i].deeds.sent
  {
    InvInRun(c, states, labels, i);
  }

  /** `at` are the positions of exactly the inputs that are payloads `convert` keeps; `vs` what it makes of them. */
  ghost predicate KeptAt<S, T>(c: Config<S, T>, ds: seq<Data<S>>, vs: seq<T>, at: seq<nat>) {
    && |at| == |vs|
    && (forall i, j :: 0 <= i < j < |at| ==> at[i] < at[j])
    && (forall i :: 0 <= i < |at| ==>
          at[i] < |ds| && ds[at[i]].Payload? && c.convert(ds[at[i]].payload) == Some(vs[i]))
    && (forall j :: 0 <= j < |ds| && ds[j].Payload? && c.convert(ds[j].payload).Some? ==> j in at)
  }

  /** What is deliverable are the kept inputs, converted, each once and in order. */
  lemma {:induction false} DeliverableIsWhatIsKept<S, T>(c: Config<S, T>, ds: seq<Data<S>>) returns (at: seq<nat>)
    ensures KeptAt(c, ds, Deliverable(c, ds), at)
    decreases |ds|
  {
    if ds == [] {
      at := [];
    } else {
      var n := |ds| - 1;
      at := DeliverableIsWhatIsKept(c, ds[..n]);
      assert ds == ds[..n] + [ds[n]];
      DeliverableOfConcat(c, ds[..n], [ds[n]]);
      assert Deliverable(c, [ds[n]]) == match Kept(c, ds[n]) case None => [] case Some(v) => [v];
      if ds[n].Payload? && c.convert(ds[n].payload).Some? {
        KeptOneMore(c, ds[..n], ds[n], Deliverable(c, ds[..n]), at);
        at := at + [n];
      }
    }
  }

  lemma KeptOneMore<S, T>(c: Config<S, T>, ds: seq<Data<S>>, d: Data<S>, vs: seq<T>, at: seq<nat>)
    requires KeptAt(c, ds, vs, at) && d.Payload? && c.convert(d.payload).Some?
    ensures KeptAt(c, ds + [d], vs + [c.convert(d.payload).value], at + [|ds|])
  {
    var at', ds' := at + [|ds|], ds + [d];
    forall j | 0 <= j < |ds'| && ds'[j].Payload? && c.convert(ds'[j].payload).Some?
      ensures j in at'
    {
      if j == |ds| {
        assert at'[|at|] == j;
      } else {
        assert ds'[j] == ds[j] && j in at;
      }
    }
  }

  /** What was sent is what was read and what is still in the channel. */
  ghost predicate HandedOn<S, T>(s: State<S, T>) {
    s.deeds.sent == s.world.read + s.world.buffer
  }

  lemma OutsideKeepsRead<S, T>(c: Config<S, T>, s: State<S, T>, s': State<S, T>, e: Outside<S>)
    requires OutsideStep(c, s, s', e) && HandedOn(s)
    ensures HandedOn(s')
  {
    if e == Read {
      assert s.world.buffer == [s.world.buffer[0]] + s.world.buffer[1..];
      Associative(s.world.read, [s.world.buffer[0]], s.world.buffer[1..]);
    }
  }

  lemma LoopKeepsRead<S, T>(c: Config<S, T>, s: State<S, T>, s': State<S, T>, choice: Choice)
    requires LoopStep(c, s, s', choice) && HandedOn(s)
    ensures HandedOn(s')
  {
    if s.place.Sending? && choice == Proceed {
      Associative(s.world.read, s.world.buffer, [s.place.held]);
    } else {
      assert s'.deeds.sent == s.deeds.sent && s'.world.read == s.world.read && s'.world.buffer == s.world.buffer;
    }
  }

  /** The subscriber reads what was sent, in order; at most one value is still in the channel. */
  lemma {:induction false} ReadIsWhatWasSent<S, T>(
      c: Config<S, T>, states: seq<State<S, T>>, labels: seq<Label<S>>, i: nat)
    requires Run(c, states, labels) && Init(c, states[0]) && i < |states|
    ensures states[i].deeds.sent == states[i].world.read + states[i].world.buffer && |states[i].world.buffer| <= 1
  {
    if i > 0 {
      ReadIsWhatWasSent(c, states, labels, i - 1);
      match labels[i - 1]
      case OfOutside(e) => OutsideKeepsRead(c, states[i - 1], states[i], e);
      case OfLoop(choice) => LoopKeepsRead(c, states[i - 1], states[i], choice);
    }
    InvInRun(c, states, labels, i);
  }

  // ----- The loop leaves only for a reason, and waits only when there is nothing to do

  /** Everything that was kept has been sent, and nothing can come any more. */
  ghost predicate Exhausted<S, T>(c: Config<S, T>, s: State<S, T>) {
    s.world.queueClosed && s.world.queue == [] && s.deeds.sent == Deliverable(c, s.world.arrived)
  }

  /** The authorisation is asked and says no. */
  predicate Denies<S, T>(s: State<S, T>, l: Label<S>) {
    l.OfLoop? && s.place.Checking? && !s.world.allowed
  }

  lemma LeavingHasACause<S, T>(c: Config<S, T>, s: State<S, T>, s': State<S, T>, l: Label<S>)
    requires Step(c, s, s', l) && Ordered(c, s) && !Leaving(s.place) && Leaving(s'.place)
    ensures s.world.ctxDone || Denies(s, l) || Exhausted(c, s')
  {
    assert l.OfLoop? && (s.place.Selecting? || s.place.Sending? || s.place.Checking?);
    if s.place.Selecting? {
      assert InHand(s.place) == [] && s.deeds.sent + [] + [] == s.deeds.sent;
    }
  }

  lemma LeavingIsForGood<S, T>(c: Config<S, T>, s: State<S, T>, s': State<S, T>, l: Label<S>)
    requires Step(c, s, s', l) && Leaving(s.place)
    ensures Leaving(s'.place) && (Exhausted(c, s) ==> Exhausted(c, s'))
  {
  }

  /** Only a guarded loop drains, and only one with an authorisation asks for it. */
  lemma {:induction false} AsksOnlyIfGuarded<S, T>(
      c: Config<S, T>, states: seq<State<S, T>>, labels: seq<Label<S>>, i: nat)
    requires Run(c, states, labels) && Init(c, states[0]) && i < |states|
    ensures states[i].place.Checking? || states[i].place.Stamping? ==>
              c.authorizes && (states[i].place.resume.ToDrain? ==> c.Guarded())
    ensures states[i].place.Draining? ==> c.Guarded()
    ensures !c.Guarded() ==> states[i].revokedNil
  {
    if i > 0 {
      AsksOnlyIfGuarded(c, states, labels, i - 1);
    }
  }

  /**
    In every run the loop has left only because the context was done, because a check was denied, or
    because the data topic was closed and everything it had brought was sent.
   */
  lemma {:induction false} LeavesOnlyForACause<S, T>(
      c: Config<S, T>, states: seq<State<S, T>>, labels: seq<Label<S>>, i: nat)
    requires Run(c, states, labels) && Init(c, states[0]) && i < |states| && Leaving(states[i].place)
    ensures || (exists j :: 0 <= j < i && states[j].world.ctxDone)
            || (c.authorizes && exists j :: 0 <= j < i && Denies(states[j], labels[j]))
            || Exhausted(c, states[i])
  {
    if i > 0 {
      if Leaving(states[i - 1].place) {
        LeavesOnlyForACause(c, states, labels, i - 1);
        LeavingIsForGood(c, states[i - 1], states[i], labels[i - 1]);
      } else {
        InvInRun(c, states, labels, i - 1);
        AsksOnlyIfGuarded(c, states, labels, i - 1);
        LeavingHasACause(c, states[i - 1], states[i], labels[i - 1]);
      }
    }
  }

  /** With nothing to read, nothing to hear and no reason to leave, or with a reader that does not read. */
  predicate Waits<S, T>(s: State<S, T>) {
    || s.place.Done?
    || (&& s.place.Selecting? && !s.world.ctxDone && s.world.queue == [] && !s.world.queueClosed
        && (s.revokedNil || (s.world.signals == [] && !s.world.signalsClosed)))
    || (s.place.Sending? && !s.world.ctxDone && |s.world.buffer| >= 1)
  }

  /** The loop stands still exactly when it has to wait. */
  lemma StandsStillIffItWaits<S, T>(c: Config<S, T>, s: State<S, T>)
    ensures (exists s', choice :: LoopStep(c, s, s', choice)) <==> !Waits(s)
  {
    if !Waits(s) {
      var s', choice := NextStep(c, s);
    }
  }

  lemma NextStep<S, T>(c: Config<S, T>, s: State<S, T>) returns (s': State<S, T>, choice: Choice)
    requires !Waits(s)
    ensures LoopStep(c, s, s', choice)
  {
    if s.place.Selecting? {
      if s.world.ctxDone {
        choice, s' := ContextDone, s.(place := ClosingOut);
      } else if s.world.queue != [] {
        choice, s' := TakeData, Received(c, s);
      } else if s.world.queueClosed {
        choice, s' := QueueGone, s.(place := ClosingOut);
      } else if s.world.signals != [] {
        choice, s' := TakeSignal, Handle(c, s, ToSelect);
      } else {
        choice, s' := SignalsGone, s.(revokedNil := true);
      }
    } else if s.place.Sending? && !s.world.ctxDone {
      choice := Proceed;
      s' := s.(world := s.world.(buffer := s.world.buffer + [s.place.held]),
               deeds := s.deeds.(sent := s.deeds.sent + [s.place.held]), place := Selecting);
    } else if s.place.Sending? {
      choice, s' := ContextDone, s.(place := ClosingOut);
    } else if s.place.Draining? {
      s', choice := DrainsOn(c, s);
    } else {
      choice, s' := Proceed, Straight(c, s);
    }
  }

  lemma DrainsOn<S, T>(c: Config<S, T>, s: State<S, T>) returns (s': State<S, T>, choice: Choice)
    requires s.place.Draining?
    ensures LoopStep(c, s, s', choice) && s'.world.ctxDone == s.world.ctxDone
  {
    var v := s.place.held;
    if s.world.signals != [] {
      choice, s' := TakeSignal, Handle(c, s, ToDrain(v));
    } else if s.world.signalsClosed {
      choice, s' := SignalsGone, s.(revokedNil := true, place := AgeCheck(v));
    } else {
      choice, s' := Proceed, s.(place := AgeCheck(v));
    }
  }

  // ----- A waiting signal is dealt with before anything more is sent

  /** A signal for this user is in the revocation channel. */
  ghost predicate SignalWaiting<S, T>(c: Config<S, T>, s: State<S, T>) {
    exists i :: 0 <= i < |s.world.signals| && Concerns(s.world.signals[i], c.userID)
  }

  /** The loop has not passed the drain of any value, and must look at a signal for this user first. */
  ghost predicate MustRecheck<S, T>(c: Config<S, T>, s: State<S, T>) {
    || Leaving(s.place)
    || s.place.Checking?
    || (&& !s.revokedNil && SignalWaiting(c, s)
        && (s.place.Selecting? || s.place.Draining? || (s.place.Stamping? && !s.place.resume.ToSend?)))
  }

  lemma OutsideKeepsWaiting<S, T>(c: Config<S, T>, s: State<S, T>, s': State<S, T>, e: Outside<S>)
    requires OutsideStep(c, s, s', e) && SignalWaiting(c, s)
    ensures SignalWaiting(c, s')
  {
    var i :| 0 <= i < |s.world.signals| && Concerns(s.world.signals[i], c.userID);
    assert s'.world.signals[i] == s.world.signals[i];
  }

  /** A step of the loop takes the first signal at most, and goes to a recheck if it is for this user. */
  lemma LoopKeepsWaiting<S, T>(c: Config<S, T>, s: State<S, T>, s': State<S, T>, choice: Choice)
    requires LoopStep(c, s, s', choice) && SignalWaiting(c, s)
    ensures SignalWaiting(c, s') || s'.place.Checking?
  {
    var i :| 0 <= i < |s.world.signals| && Concerns(s.world.signals[i], c.userID);
    if s'.world.signals == s.world.signals {
      assert s'.world.signals[i] == s.world.signals[i];
    } else if i > 0 {
      assert s'.world.signals[i - 1] == s.world.signals[i];
    }
  }

  lemma DeniedStaysSilent<S, T>(c: Config<S, T>, s: State<S, T>, s': State<S, T>, l: Label<S>)
    requires Step(c, s, s', l) && MustRecheck(c, s) && !s.world.allowed
    ensures MustRecheck(c, s') && s'.deeds.sent == s.deeds.sent
  {
    if SignalWaiting(c, s) {
      match l
      case OfOutside(e) => OutsideKeepsWaiting(c, s, s', e);
      case OfLoop(choice) => LoopKeepsWaiting(c, s, s', choice);
    }
  }

  /**
    Whenever a signal for this user is waiting before a value's drain is over, or the recheck that it
    forces has been called, and access is denied from then on, neither that value nor a later one is
    sent, whatever `select` chooses.
   */
  lemma QueuedRevocationStopsDelivery<S, T>(
      c: Config<S, T>, states: seq<State<S, T>>, labels: seq<Label<S>>, i: nat, j: nat)
    requires Run(c, states, labels) && i <= j < |states| && MustRecheck(c, states[i])
    requires forall k :: i <= k <= j ==> !states[k].world.allowed
    ensures states[j].deeds.sent == states[i].deeds.sent
    ensures !states[j].place.AgeCheck? && !states[j].place.Sending?
  {
    SilentFrom(c, states, labels, i, j);
  }

  /** The loop gives up listening only when the revocation topic is closed and heard to the end. */
  lemma {:induction false} ListensToTheEnd<S, T>(
      c: Config<S, T>, states: seq<State<S, T>>, labels: seq<Label<S>>, i: nat)
    requires Run(c, states, labels) && Init(c, states[0]) && i < |states| && c.authorizes && c.revokes
    ensures states[i].revokedNil ==> states[i].world.signalsClosed && states[i].world.signals == []
  {
    if i > 0 {
      ListensToTheEnd(c, states, labels, i - 1);
    }
  }

  /** The same said of the signal itself: for everyone, for this user, or of an unknown kind. */
  lemma RevocationStopsDelivery<S, T>(
      c: Config<S, T>, states: seq<State<S, T>>, labels: seq<Label<S>>, i: nat, j: nat, sig: Signal)
    requires Run(c, states, labels) && Init(c, states[0]) && i <= j < |states| && c.authorizes && c.revokes
    requires sig in states[i].world.signals
    requires sig == Unreadable || sig == RoomAccessChanged([]) || (sig.RoomAccessChanged? && c.userID in sig.userIDs)
    requires states[i].place.Selecting? || states[i].place.Draining?
    requires forall k :: i <= k <= j ==> !states[k].world.allowed
    ensures states[j].deeds.sent == states[i].deeds.sent
    ensures !states[j].place.AgeCheck? && !states[j].place.Sending?
  {
    ListensToTheEnd(c, states, labels, i);
    QueuedRevocationStopsDelivery(c, states, labels, i, j);
  }

  /** Such signals do arrive, from the start on, and lead to a recheck; signals for others do not. */
  lemma SignalIsHeard<S, T>(c: Config<S, T>, s: State<S, T>, sig: Signal) returns (s1: State<S, T>, s2: State<S, T>)
    requires Init(c, s) && c.authorizes && c.revokes && s.world.signals == []
    ensures Step(c, s, s1, OfOutside(Signal(sig))) && s1.world.signals == [sig]
    ensures Step(c, s1, s2, OfLoop(TakeSignal)) && s2.world.signals == []
    ensures if sig.RoomAccessChanged? && sig.userIDs != [] && c.userID !in sig.userIDs
            then s2.place.Selecting? else s2.place.Checking?
  {
    s1 := s.(world := s.world.(signals := [sig]));
    assert [] + [sig] == [sig];
    s2 := Handle(c, s1, ToSelect);
  }

  lemma {:induction false} SilentFrom<S, T>(
      c: Config<S, T>, states: seq<State<S, T>>, labels: seq<Label<S>>, i: nat, j: nat)
    requires Run(c, states, labels) && i <= j < |states| && MustRecheck(c, states[i])
    requires forall k :: i <= k <= j ==> !states[k].world.allowed
    ensures MustRecheck(c, states[j]) && states[j].deeds.sent == states[i].deeds.sent
    decreases j - i
  {
    if i < j {
      SilentFrom(c, states, labels, i, j - 1);
      DeniedStaysSilent(c, states[j - 1], states[j], labels[j - 1]);
    }
  }

  // ----- Without a signal: how long a lost access may go unnoticed

  /** The step at which the loop decides to send the value it holds. */
  predicate Releases<S, T>(s: State<S, T>, s': State<S, T>) {
    s'.place.Sending? && !s.place.Sending?
  }

  /** Access is lost for good at `lost`. */
  ghost predicate LostAt<S, T>(states: seq<State<S, T>>, lost: int) {
    forall i :: 0 <= i < |states| && states[i].world.now >= lost ==> !states[i].world.allowed
  }

  /** The check behind the stamp, the entry check or a later one, was decided before the loss. */
  lemma {:induction false} ChecksPrecedeLoss<S, T>(
      c: Config<S, T>, states: seq<State<S, T>>, labels: seq<Label<S>>, lost: int, i: nat)
    requires Run(c, states, labels) && i < |states| && states[0].place.Selecting?
    requires states[0].decidedAt < lost && LostAt(states, lost)
    ensures states[i].decidedAt < lost
    ensures states[i].place.Stamping? ==> states[i].place.decided < lost
  {
    if i > 0 {
      ChecksPrecedeLoss(c, states, labels, lost, i - 1);
    }
  }

  lemma ReleasingStep<S, T>(c: Config<S, T>, s: State<S, T>, s': State<S, T>, l: Label<S>)
    requires Timely(s) && Step(c, s, s', l) && c.authorizes && c.interval > 0 && Releases(s, s')
    ensures s'.lastChecked <= s'.world.now < s'.lastChecked + c.interval
  {
    assert l.OfLoop? && (s.place.AgeCheck? || s.place.Stamping?);
  }

  /** Every value is released less than one interval after the last completed check (or the start). */
  lemma ReleaseFollowsCheck<S, T>(c: Config<S, T>, states: seq<State<S, T>>, labels: seq<Label<S>>, i: nat)
    requires Run(c, states, labels) && Init(c, states[0]) && i + 1 < |states|
    requires c.authorizes && c.interval > 0 && Releases(states[i], states[i + 1])
    ensures states[i + 1].lastChecked <= states[i + 1].world.now < states[i + 1].lastChecked + c.interval
  {
    InvInRun(c, states, labels, i);
    ReleasingStep(c, states[i], states[i + 1], labels[i]);
  }

  /** From decision to stamp, no check takes longer than `latency`. */
  ghost predicate Prompt<S, T>(states: seq<State<S, T>>, latency: nat) {
    forall i :: 0 <= i < |states| ==> states[i].lastChecked - states[i].decidedAt <= latency
  }

  /**
    A run in which access is lost for good at `lost`, after the entry check was decided (the loop may
    not have started yet), and checks take at most `latency`. For the entry check this is the time
    until the loop starts.
   */
  ghost predicate LosesAccess<S, T>(
      c: Config<S, T>, states: seq<State<S, T>>, labels: seq<Label<S>>, lost: int, latency: nat) {
    && Run(c, states, labels) && Init(c, states[0])
    && states[0].decidedAt < lost && LostAt(states, lost) && Prompt(states, latency)
  }

  /** How long after the loss a value may still be released. Times are whole units. */
  function Grace(interval: int, latency: nat): int {
    interval + latency - 1
  }

  /** Nothing is released once the grace is over. */
  lemma LostAccessEndsReleases<S, T>(
      c: Config<S, T>, states: seq<State<S, T>>, labels: seq<Label<S>>, lost: int, latency: nat, i: nat)
    requires LosesAccess(c, states, labels, lost, latency) && i + 1 < |states|
    requires c.authorizes && c.interval > 0 && Releases(states[i], states[i + 1])
    ensures states[i + 1].world.now < lost + Grace(c.interval, latency)
  {
    ReleaseFollowsCheck(c, states, labels, i);
    ChecksPrecedeLoss(c, states, labels, lost, i + 1);
  }

  /** One more step of such a run. */
  lemma OneMore<S, T>(c: Config<S, T>, states: seq<State<S, T>>, labels: seq<Label<S>>, lost: int, latency: nat,
                      s': State<S, T>, l: Label<S>)
    requires LosesAccess(c, states, labels, lost, latency) && Step(c, states[|states| - 1], s', l)
    requires s'.world.now >= lost ==> !s'.world.allowed
    requires s'.lastChecked - s'.decidedAt <= latency
    ensures LosesAccess(c, states + [s'], labels + [l], lost, latency)
  {
    var states', labels' := states + [s'], labels + [l];
    forall i | 0 <= i < |labels'|
      ensures Step(c, states'[i], states'[i + 1], labels'[i])
    {
      if i < |labels| {
        assert Step(c, states[i], states[i + 1], labels[i]);
      }
    }
  }

  /** The loop waits for a value, with nothing queued. */
  predicate Idle<S, T>(c: Config<S, T>, s: State<S, T>) {
    && s.place == Selecting && s.revokedNil == !c.Guarded()
    && s.world.queue == [] && !s.world.queueClosed && s.world.signals == [] && !s.world.signalsClosed
    && s.deeds.topicLeft == 0
  }

  /** `s` after value `d` has arrived and, at `time`, has come to its age test. */
  function Aged<S, T>(c: Config<S, T>, s: State<S, T>, d: Data<S>, time: int): State<S, T>
    requires Kept(c, d).Some?
  {
    s.(world := s.world.(now := time, arrived := s.world.arrived + [d]), place := AgeCheck(Kept(c, d).value))
  }

  /** A value arrives and comes to its age test, through the drain if there is a revocation topic. */
  lemma ValueArrives<S, T>(c: Config<S, T>, states: seq<State<S, T>>, labels: seq<Label<S>>, lost: int, latency: nat,
                           d: Data<S>, time: int)
    returns (states': seq<State<S, T>>, labels': seq<Label<S>>)
    requires LosesAccess(c, states, labels, lost, latency) && Kept(c, d).Some?
    requires Idle(c, states[|states| - 1]) && states[|states| - 1].world.now <= time
    requires time >= lost ==> !states[|states| - 1].world.allowed
    ensures LosesAccess(c, states', labels', lost, latency) && states'[0] == states[0]
    ensures |states'| > |states| && states'[|states'| - 1] == Aged(c, states[|states| - 1], d, time)
  {
    var s := states[|states| - 1];
    var v := Kept(c, d).value;
    var s1 := s.(world := s.world.(queue := [d], arrived := s.world.arrived + [d]));
    assert [] + [d] == [d];
    OneMore(c, states, labels, lost, latency, s1, OfOutside(Publish(d)));
    var s2 := s1.(world := s1.world.(now := time));
    OneMore(c, states + [s1], labels + [OfOutside(Publish(d))], lost, latency, s2, OfOutside(Tick(time)));
    states', labels' := states + [s1] + [s2], labels + [OfOutside(Publish(d))] + [OfOutside(Tick(time))];
    var s3 := Received(c, s2);
    assert s3.world.queue == [];
    OneMore(c, states', labels', lost, latency, s3, OfLoop(TakeData));
    states', labels' := states' + [s3], labels' + [OfLoop(TakeData)];
    if c.Guarded() {
      var s4 := s3.(place := AgeCheck(v));
      OneMore(c, states', labels', lost, latency, s4, OfLoop(Proceed));
      states', labels' := states' + [s4], labels' + [OfLoop(Proceed)];
    }
  }

  /** The age test lets a young value pass. */
  lemma YoungValuePasses<S, T>(
      c: Config<S, T>, states: seq<State<S, T>>, labels: seq<Label<S>>, lost: int, latency: nat)
    returns (states': seq<State<S, T>>, labels': seq<Label<S>>)
    requires LosesAccess(c, states, labels, lost, latency)
    requires var s := states[|states| - 1]; s.place.AgeCheck? && s.world.now - s.lastChecked < c.interval
    ensures LosesAccess(c, states', labels', lost, latency) && states'[0] == states[0] && |states'| == |states| + 1
    ensures Releases(states'[|states'| - 2], states'[|states'| - 1])
    ensures states'[|states'| - 1].world == states[|states| - 1].world
  {
    var s := states[|states| - 1];
    var s' := s.(place := Sending(s.place.held));
    OneMore(c, states, labels, lost, latency, s', OfLoop(Proceed));
    states', labels' := states + [s'], labels + [OfLoop(Proceed)];
  }

  /** At its age test a value is found too old; the check is decided, then access is lost; the stamp comes late. */
  lemma LateStamp<S, T>(c: Config<S, T>, states: seq<State<S, T>>, labels: seq<Label<S>>, lost: int, latency: nat)
    returns (states': seq<State<S, T>>, labels': seq<Label<S>>)
    requires LosesAccess(c, states, labels, lost, latency) && c.authorizes
    requires var s := states[|states| - 1];
             && s.place.AgeCheck? && s.world.now - s.lastChecked >= c.interval
             && s.world.now == lost - 1 && s.world.allowed
    ensures LosesAccess(c, states', labels', lost, latency) && states'[0] == states[0]
    ensures var s, s' := states[|states| - 1], states'[|states'| - 1];
            var late := lost - 1 + latency;
            s' == s.(world := s.world.(now := late, allowed := false), place := Sending(s.place.held),
                     lastChecked := late, decidedAt := lost - 1)
  {
    var s := states[|states| - 1];
    var v := s.place.held;
    var late := lost - 1 + latency;
    var s1 := s.(place := Checking(ToSend(v)));
    OneMore(c, states, labels, lost, latency, s1, OfLoop(Proceed));
    states', labels' := states + [s1], labels + [OfLoop(Proceed)];
    var s2 := s1.(place := Stamping(ToSend(v), lost - 1));
    OneMore(c, states', labels', lost, latency, s2, OfLoop(Proceed));
    states', labels' := states' + [s2], labels' + [OfLoop(Proceed)];
    var s3 := s2.(world := s2.world.(allowed := false));
    OneMore(c, states', labels', lost, latency, s3, OfOutside(SetAllowed(false)));
    states', labels' := states' + [s3], labels' + [OfOutside(SetAllowed(false))];
    var s4 := s3.(world := s3.world.(now := late));
    OneMore(c, states', labels', lost, latency, s4, OfOutside(Tick(late)));
    states', labels' := states' + [s4], labels' + [OfOutside(Tick(late))];
    var s5 := s4.(place := Sending(v), lastChecked := late, decidedAt := lost - 1);
    OneMore(c, states', labels', lost, latency, s5, OfLoop(Proceed));
    states', labels' := states' + [s5], labels' + [OfLoop(Proceed)];
  }

  /** The start at time `now`, after an entry check that was decided at 0. */
  function Start<S, T>(c: Config<S, T>, now: nat, allowed: bool): State<S, T> {
    State(World(now, allowed, false, [], false, [], false, [], [], []),
          Selecting, !c.Guarded(), now, 0, Deeds([], 0, 0, 0))
  }

  /** A late recheck: the stamp after the loss starts an interval, at whose very end another value is released. */
  lemma SlowCheckReleasesLate<S, T>(c: Config<S, T>, latency: nat, d: Data<S>)
    returns (states: seq<State<S, T>>, labels: seq<Label<S>>, lost: int)
    requires c.authorizes && c.interval > 0 && Kept(c, d).Some?
    ensures LosesAccess(c, states, labels, lost, latency) && states[0].world.now < lost
    ensures |states| >= 2 && Releases(states[|states| - 2], states[|states| - 1])
    ensures states[|states| - 1].world.now == lost + Grace(c.interval, latency) - 1
  {
    lost := c.interval + 1;
    states, labels := [Start(c, 0, true)], [];
    states, labels := ValueArrives(c, states, labels, lost, latency, d, c.interval);
    states, labels := LateStamp(c, states, labels, lost, latency);
    var s := states[|states| - 1];
    var v := s.place.held;
    var s' := s.(world := s.world.(buffer := [v]), deeds := s.deeds.(sent := [v]), place := Selecting);
    OneMore(c, states, labels, lost, latency, s', OfLoop(Proceed));
    states, labels := states + [s'], labels + [OfLoop(Proceed)];
    states, labels := ValueArrives(c, states, labels, lost, latency, d, lost - 1 + latency + c.interval - 1);
    states, labels := YoungValuePasses(c, states, labels, lost, latency);
  }

  /** A late start: access is lost right after the entry check, and the start stamps it all the same. */
  lemma StartReleasesLate<S, T>(c: Config<S, T>, latency: nat, d: Data<S>)
    returns (states: seq<State<S, T>>, labels: seq<Label<S>>, lost: int)
    requires c.authorizes && c.interval > 0 && Kept(c, d).Some?
    ensures LosesAccess(c, states, labels, lost, latency) && states[0].world.now == lost - 1 + latency
    ensures |states| >= 2 && Releases(states[|states| - 2], states[|states| - 1])
    ensures states[|states| - 1].world.now == lost + Grace(c.interval, latency) - 1
  {
    lost := 1;
    states, labels := [Start(c, latency, false)], [];
    states, labels := ValueArrives(c, states, labels, lost, latency, d, latency + c.interval - 1);
    states, labels := YoungValuePasses(c, states, labels, lost, latency);
  }

  /** In every run with checks of at most `latency`, nothing is released at or after the loss plus `delay`. */
  ghost predicate SilentAfter<S(!new), T(!new)>(c: Config<S, T>, latency: nat, delay: int) {
    forall states: seq<State<S, T>>, labels, lost, i: nat
      | LosesAccess(c, states, labels, lost, latency) && i + 1 < |states| ::
      Releases(states[i], states[i + 1]) ==> states[i + 1].world.now < lost + delay
  }

  /**
    The grace is exact. So the promise that access lost at T shows until T plus the interval at most
    holds exactly as long as no check, the entry check included, takes more than one unit of time from
    decision to stamp.
   */
  lemma GraceIsExact<S(!new), T(!new)>(c: Config<S, T>, latency: nat, delay: int, d: Data<S>)
    requires c.authorizes && c.interval > 0 && Kept(c, d).Some?
    ensures SilentAfter(c, latency, delay) <==> Grace(c.interval, latency) <= delay
    ensures SilentAfter(c, latency, c.interval) <==> latency <= 1
  {
    GraceIsEnough(c, latency);
    var states, labels, lost := StartReleasesLate(c, latency, d);
    var i := |states| - 2;
    assert Releases(states[i], states[i + 1]);
    assert forall delay :: SilentAfter(c, latency, delay) ==> states[i + 1].world.now < lost + delay;
  }

  lemma GraceIsEnough<S(!new), T(!new)>(c: Config<S, T>, latency: nat)
    requires c.authorizes && c.interval > 0
    ensures forall delay :: Grace(c.interval, latency) <= delay ==> SilentAfter(c, latency, delay)
  {
    forall states: seq<State<S, T>>, labels, lost, i: nat
      | LosesAccess(c, states, labels, lost, latency) && i + 1 < |states| && Releases(states[i], states[i + 1])
      ensures states[i + 1].world.now < lost + Grace(c.interval, latency)
    {
      LostAccessEndsReleases(c, states, labels, lost, latency, i);
    }
  }

  // ----- Cancellation always ends the loop

  /** A bound on the steps the loop can still take by itself. */
  function Work<S, T>(s: State<S, T>): nat {
    20 * |s.world.queue| + 6 * |s.world.signals| + (if s.revokedNil then 0 else 1)
    + match s.place
      case Selecting => 5
      case Checking(r) => if r.ToSelect? then 7 else if r.ToDrain? then 17 else 11
      case Stamping(r, _) => if r.ToSelect? then 6 else if r.ToDrain? then 16 else 10
      case Draining(_) => 15
      case AgeCheck(_) => 12
      case Sending(_) => 9
      case ClosingOut => 3
      case LeavingTopic => 2
      case LeavingRevokeTopic => 1
      case Done => 0
  }

  /** Every step of the loop uses up work, so without new arrivals it cannot spin. */
  lemma LoopStepUsesWork<S, T>(c: Config<S, T>, s: State<S, T>, s': State<S, T>, choice: Choice)
    requires LoopStep(c, s, s', choice)
    ensures Work(s') < Work(s)
  {
  }

  /** With the context done, the loop is never stuck: not even while its reader never reads. */
  lemma CancelledCanMove<S, T>(c: Config<S, T>, s: State<S, T>) returns (s': State<S, T>, choice: Choice)
    requires s.world.ctxDone && !s.place.Done?
    ensures LoopStep(c, s, s', choice) && s'.world.ctxDone
  {
    if s.place.Selecting? || s.place.Sending? {
      choice, s' := ContextDone, s.(place := ClosingOut);
    } else if s.place.Draining? {
      s', choice := DrainsOn(c, s);
    } else {
      choice, s' := Proceed, Straight(c, s);
    }
  }
}
