/**
 The activity tracker as a step system: producers feed a bounded queue, an aggregator turns it into
 batches, a second bounded queue carries batches to a flusher that writes three tables. Any
 interleaving of the steps below is a run; the day of every aggregation comes from outside.
 */
module ActivityPipeline {
  import opened ActivityBatches

  const QUEUE_CAPACITY: nat := 100
  const CHANNEL_CAPACITY: nat := 5

  /** Where the aggregator is. `Closing` starts when the drain has seen an empty queue. */
  datatype Phase = Running | Flushing | Draining | Closing | Stopped

  datatype Flusher = Waiting | Writing(batch: Totals, next: Kind) | Ended | Dead

  datatype State = State(
    queue: seq<Activity>,
    aggregator: Phase,
    pending: Totals,
    channel: seq<Totals>,
    flusher: Flusher,
    cancelled: bool,
    written: Totals,
    // History of the run.
    accepted: seq<Activity>,
    aggregated: seq<(Activity, Day)>,
    late: seq<Activity>,
    unread: seq<Activity>,
    lost: Totals,
    overflowed: Totals)

  datatype Step =
    | Track(activity: Activity)
    | Receive(day: Day)
    | Tick
    | FlushSent
    | FlushRefused
    | Cancel
    | SeeCancel
    | DrainOne(day: Day)
    | DrainEnd
    | FinalSent
    | FinalRefused
    | Close
    | Take
    | Write(ok: bool, inactive: set<EntityId>)
    | End
    | Die

  const INIT: State :=
    State([], Running, NO_TOTALS, [], Waiting, false, NO_TOTALS, [], [], [], [], NO_TOTALS, NO_TOTALS)

  predicate Alive(f: Flusher) {
    f.Waiting? || f.Writing?
  }

  predicate Enabled(s: State, e: Step) {
    match e
    case Track(_) => s.aggregator != Stopped && |s.queue| < QUEUE_CAPACITY
    case Receive(_) => s.aggregator == Running && s.queue != []
    case Tick => s.aggregator == Running
    case FlushSent => s.aggregator == Flushing && Alive(s.flusher) && |s.channel| < CHANNEL_CAPACITY
    case FlushRefused => s.aggregator == Flushing && !Alive(s.flusher)
    case Cancel => true
    case SeeCancel => s.aggregator == Running && s.cancelled
    case DrainOne(_) => s.aggregator == Draining && s.queue != []
    case DrainEnd => s.aggregator == Draining && s.queue == []
    case FinalSent => s.aggregator == Closing && !s.pending.IsEmpty() && Alive(s.flusher) && |s.channel| < CHANNEL_CAPACITY
    case FinalRefused => s.aggregator == Closing && !s.pending.IsEmpty() && !Alive(s.flusher)
    case Close => s.aggregator == Closing && s.pending.IsEmpty()
    case Take => s.flusher == Waiting && s.channel != []
    case Write(_, _) => s.flusher.Writing?
    case End => s.flusher == Waiting && s.channel == [] && s.aggregator == Stopped
    case Die => Alive(s.flusher)
  }

  function AddTotals(t: Totals, b: Totals): Totals {
    Totals(Add(t.community, b.community), Add(t.event, b.event), Add(t.group, b.group))
  }

  function Sum(channel: seq<Totals>): Totals {
    if channel == [] then NO_TOTALS else AddTotals(channel[0], Sum(channel[1..]))
  }

  predicate Unwritten(next: Kind, kind: Kind) {
    match next
    case Community => true
    case Event => kind != Community
    case Group => kind == Group
  }

  /** What the flusher holds and has not yet handed to the database. */
  function InHand(f: Flusher): Totals {
    match f
    case Writing(b, next) =>
      Totals(
        if Unwritten(next, Community) then b.community else map[],
        if Unwritten(next, Event) then b.event else map[],
        if Unwritten(next, Group) then b.group else map[])
    case _ => NO_TOTALS
  }

  function Next(batch: Totals, kind: Kind): Flusher {
    match kind
    case Community => Writing(batch, Event)
    case Event => Writing(batch, Group)
    case Group => Waiting
  }

  /** Taking one activity from the queue into the batches. */
  function AggregateHead(s: State, day: Day): State
    requires s.queue != []
  {
    var a, k := s.queue[0], (s.queue[0].id, day);
    var wraps := Get(s.pending.Of(a.kind), k) + 1 == U32;
    s.(queue := s.queue[1..],
       pending := Aggregate(s.pending, a, day),
       aggregated := s.aggregated + [(a, day)],
       overflowed := if wraps then s.overflowed.Put(a.kind, Add(s.overflowed.Of(a.kind), map[k := U32])) else s.overflowed)
  }

  function Apply(s: State, e: Step): State
    requires Enabled(s, e)
  {
    match e
    case Track(a) =>
      s.(queue := s.queue + [a], accepted := s.accepted + [a], late := if s.aggregator == Closing then s.late + [a] else s.late)
    case Receive(day) => AggregateHead(s, day)
    case Tick => if s.pending.IsEmpty() then s else s.(aggregator := Flushing)
    case FlushSent => s.(channel := s.channel + [s.pending], pending := NO_TOTALS, aggregator := Running)
    case FlushRefused => s.(aggregator := Running)
    case Cancel => s.(cancelled := true)
    case SeeCancel => s.(aggregator := Draining)
    case DrainOne(day) => AggregateHead(s, day)
    case DrainEnd => s.(aggregator := Closing)
    case FinalSent => s.(channel := s.channel + [s.pending], pending := NO_TOTALS)
    case FinalRefused => s.(lost := AddTotals(s.lost, s.pending), pending := NO_TOTALS)
    case Close => s.(aggregator := Stopped, unread := s.queue, queue := [])
    case Take => s.(flusher := Writing(s.channel[0], Community), channel := s.channel[1..])
    case Write(ok, inactive) =>
      var next := s.flusher.next;
      var m := s.flusher.batch.Of(next);
      s.(flusher := Next(s.flusher.batch, next),
         written := s.written.Put(next, Add(s.written.Of(next), Kept(m, ok, inactive))),
         lost := s.lost.Put(next, Add(s.lost.Of(next), Dropped(m, ok, inactive))))
    case End => s.(flusher := Ended)
    case Die =>
      s.(flusher := Dead, lost := AddTotals(s.lost, AddTotals(InHand(s.flusher), Sum(s.channel))), channel := [])
  }

  ghost predicate IsRun(s: State, es: seq<Step>)
    decreases |es|
  {
    es == [] || (Enabled(s, es[0]) && IsRun(Apply(s, es[0]), es[1..]))
  }

  ghost function Final(s: State, es: seq<Step>): State
    requires IsRun(s, es)
    decreases |es|
  {
    if es == [] then s else Final(Apply(s, es[0]), es[1..])
  }

  // ---- Conservation ---------------------------------------------------------------------------

  function Activities(log: seq<(Activity, Day)>): (r: seq<Activity>)
    ensures |r| == |log|
  {
    seq(|log|, i requires 0 <= i < |log| => log[i].0)
  }

  /** Every count, of whatever kind, entity and day, is in exactly one place. */
  ghost predicate Balanced(s: State, kind: Kind, k: Key) {
    Count(s.aggregated, kind, k) ==
      Get(s.pending.Of(kind), k) + Get(Sum(s.channel).Of(kind), k) + Get(InHand(s.flusher).Of(kind), k)
      + Get(s.written.Of(kind), k) + Get(s.lost.Of(kind), k) + Get(s.overflowed.Of(kind), k)
  }

  /** Everything accepted was aggregated, in order, or is still queued, or was left unread. */
  ghost predicate Ordered(s: State) {
    && s.accepted == Activities(s.aggregated) + s.queue + s.unread
    && (s.aggregator != Stopped ==> s.unread == [])
    && (s.aggregator == Stopped ==> s.queue == [] && s.pending.IsEmpty() && s.unread == s.late)
    && (s.aggregator == Closing ==> s.queue == s.late)
    && (s.aggregator != Closing && s.aggregator != Stopped ==> s.late == [])
    && (s.aggregator == Draining || s.aggregator == Closing || s.aggregator == Stopped ==> s.cancelled)
    && (s.flusher == Ended ==> s.aggregator == Stopped && s.channel == [])
    && (s.flusher == Dead ==> s.channel == [])
    && |s.queue| <= QUEUE_CAPACITY && |s.channel| <= CHANNEL_CAPACITY
  }

  ghost predicate Narrow(s: State, kind: Kind, k: Key) {
    Get(s.pending.Of(kind), k) < U32 && Get(s.overflowed.Of(kind), k) % U32 == 0
  }

  ghost predicate Inv(s: State) {
    Ordered(s) && forall kind, k :: Balanced(s, kind, k) && Narrow(s, kind, k)
  }

  lemma AddAt(t: Totals, b: Totals, kind: Kind, k: Key)
    ensures Get(AddTotals(t, b).Of(kind), k) == Get(t.Of(kind), k) + Get(b.Of(kind), k)
  {
  }

  lemma {:induction false} SumAppend(channel: seq<Totals>, b: Totals, kind: Kind, k: Key)
    ensures Get(Sum(channel + [b]).Of(kind), k) == Get(Sum(channel).Of(kind), k) + Get(b.Of(kind), k)
  {
    var all := channel + [b];
    if channel == [] {
      assert all[1..] == [] && all[0] == b;
      AddAt(b, NO_TOTALS, kind, k);
    } else {
      assert all[0] == channel[0] && all[1..] == channel[1..] + [b];
      SumAppend(channel[1..], b, kind, k);
      AddAt(channel[0], Sum(channel[1..] + [b]), kind, k);
      AddAt(channel[0], Sum(channel[1..]), kind, k);
    }
  }

  lemma InHandAt(batch: Totals, next: Kind, kind: Kind, k: Key)
    ensures Get(InHand(Writing(batch, next)).Of(kind), k) == if Unwritten(next, kind) then Get(batch.Of(kind), k) else 0
    ensures Get(InHand(Next(batch, next)).Of(kind), k) ==
            if Unwritten(next, kind) && kind != next then Get(batch.Of(kind), k) else 0
  {
  }

  lemma CountAppend(log: seq<(Activity, Day)>, a: Activity, day: Day, kind: Kind, k: Key)
    ensures Count(log + [(a, day)], kind, k) == Count(log, kind, k) + if a.kind == kind && (a.id, day) == k then 1 else 0
  {
    var all := log + [(a, day)];
    assert all[..|all| - 1] == log && all[|all| - 1] == (a, day);
  }

  lemma WrapAt(p: nat, o: nat)
    requires p < U32 && o % U32 == 0
    ensures (p + 1) % U32 == (if p + 1 == U32 then 0 else p + 1)
    ensures (o + U32) % U32 == 0
  {
  }

  lemma OverflowAt(s: State, day: Day, kind: Kind, k: Key)
    requires s.queue != []
    ensures Get(AggregateHead(s, day).overflowed.Of(kind), k) == Get(s.overflowed.Of(kind), k) +
            if s.queue[0].kind == kind && (s.queue[0].id, day) == k && Get(s.pending.Of(kind), k) + 1 == U32 then U32 else 0
  {
    hide Add;
    var a := s.queue[0];
    PutAddAt(s.overflowed, map[(a.id, day) := U32], a.kind, kind, k);
  }

  lemma AggregateHeadBalanced(s: State, day: Day, kind: Kind, k: Key)
    requires s.queue != [] && Balanced(s, kind, k) && Narrow(s, kind, k)
    ensures Balanced(AggregateHead(s, day), kind, k) && Narrow(AggregateHead(s, day), kind, k)
  {
    hide Sum, InHand, Add, Count, Aggregate, Get;
    var a := s.queue[0];
    BumpAt(s.pending, a, day, kind, k);
    OverflowAt(s, day, kind, k);
    CountAppend(s.aggregated, a, day, kind, k);
    WrapAt(Get(s.pending.Of(kind), k), Get(s.overflowed.Of(kind), k));
  }

  lemma WriteBalanced(s: State, ok: bool, inactive: set<EntityId>, kind: Kind, k: Key)
    requires s.flusher.Writing? && Balanced(s, kind, k)
    ensures Balanced(Apply(s, Write(ok, inactive)), kind, k)
  {
    hide Sum, InHand, Add, Count, Get, Next, Kept, Dropped;
    var b, next := s.flusher.batch, s.flusher.next;
    var m := b.Of(next);
    KeptOrDropped(m, ok, inactive, k);
    InHandAt(b, next, kind, k);
    PutAddAt(s.written, Kept(m, ok, inactive), next, kind, k);
    PutAddAt(s.lost, Dropped(m, ok, inactive), next, kind, k);
  }

  lemma TakeBalanced(s: State, kind: Kind, k: Key)
    requires s.flusher == Waiting && s.channel != [] && Balanced(s, kind, k)
    ensures Balanced(Apply(s, Take), kind, k)
  {
    hide Count, AddTotals;
    AddAt(s.channel[0], Sum(s.channel[1..]), kind, k);
    InHandAt(s.channel[0], Community, kind, k);
  }

  lemma DieBalanced(s: State, kind: Kind, k: Key)
    requires Alive(s.flusher) && Balanced(s, kind, k)
    ensures Balanced(Apply(s, Die), kind, k)
  {
    hide Count, AddTotals;
    AddAt(s.lost, AddTotals(InHand(s.flusher), Sum(s.channel)), kind, k);
    AddAt(InHand(s.flusher), Sum(s.channel), kind, k);
  }

  lemma NothingAt(kind: Kind, k: Key)
    ensures Get(NO_TOTALS.Of(kind), k) == 0 && Sum([]) == NO_TOTALS
    ensures InHand(Waiting) == InHand(Ended) == InHand(Dead) == NO_TOTALS
  {
  }

  lemma SentBalanced(s: State, kind: Kind, k: Key)
    requires Balanced(s, kind, k)
    ensures Balanced(s.(channel := s.channel + [s.pending], pending := NO_TOTALS), kind, k)
  {
    hide Count, Sum, InHand, Get;
    NothingAt(kind, k);
    SumAppend(s.channel, s.pending, kind, k);
  }

  lemma RefusedBalanced(s: State, kind: Kind, k: Key)
    requires Balanced(s, kind, k)
    ensures Balanced(s.(lost := AddTotals(s.lost, s.pending), pending := NO_TOTALS), kind, k)
  {
    hide Count, Sum, InHand, Get;
    NothingAt(kind, k);
    AddAt(s.lost, s.pending, kind, k);
  }

  /** The accounts a step can move counts between. */
  predicate SameAccounts(s: State, t: State) {
    && s.aggregated == t.aggregated && s.pending == t.pending && s.channel == t.channel
    && InHand(s.flusher) == InHand(t.flusher) && s.written == t.written && s.lost == t.lost && s.overflowed == t.overflowed
  }

  lemma SameAccountsBalanced(s: State, t: State, kind: Kind, k: Key)
    requires Balanced(s, kind, k) && SameAccounts(s, t)
    ensures Balanced(t, kind, k)
  {
    hide Count, Sum, InHand, Get;
  }

  predicate MovesCounts(e: Step) {
    e.Receive? || e.DrainOne? || e.FlushSent? || e.FinalSent? || e.FinalRefused? || e.Take? || e.Write? || e.Die?
  }

  lemma MovingStepBalanced(s: State, e: Step, kind: Kind, k: Key)
    requires MovesCounts(e) && Enabled(s, e) && Balanced(s, kind, k) && Narrow(s, kind, k)
    ensures Balanced(Apply(s, e), kind, k) && Narrow(Apply(s, e), kind, k)
  {
    hide Balanced, Count, Sum, AddTotals, Get, AggregateHead, Add;
    NothingAt(kind, k);
    match e
    case Receive(day) => AggregateHeadBalanced(s, day, kind, k);
    case DrainOne(day) => AggregateHeadBalanced(s, day, kind, k);
    case FlushSent =>
      SentBalanced(s, kind, k);
      SameAccountsBalanced(s.(channel := s.channel + [s.pending], pending := NO_TOTALS), Apply(s, e), kind, k);
    case FinalSent => SentBalanced(s, kind, k);
    case FinalRefused => RefusedBalanced(s, kind, k);
    case Take => TakeBalanced(s, kind, k);
    case Write(ok, inactive) => WriteBalanced(s, ok, inactive, kind, k);
    case Die => DieBalanced(s, kind, k);
  }

  lemma StepBalanced(s: State, e: Step, kind: Kind, k: Key)
    requires Enabled(s, e) && Balanced(s, kind, k) && Narrow(s, kind, k)
    ensures Balanced(Apply(s, e), kind, k) && Narrow(Apply(s, e), kind, k)
  {
    if MovesCounts(e) {
      MovingStepBalanced(s, e, kind, k);
    } else {
      hide Balanced, Get, AggregateHead;
      SameAccountsBalanced(s, Apply(s, e), kind, k);
    }
  }

  lemma AggregateHeadOrdered(s: State, day: Day)
    requires s.queue != [] && Ordered(s) && (s.aggregator == Running || s.aggregator == Draining)
    ensures Ordered(AggregateHead(s, day))
  {
    var s' := AggregateHead(s, day);
    assert Activities(s'.aggregated) == Activities(s.aggregated) + [s.queue[0]];
    assert s.queue == [s.queue[0]] + s'.queue;
    assert s.accepted == Activities(s'.aggregated) + s'.queue + s'.unread;
  }

  lemma StepOrdered(s: State, e: Step)
    requires Enabled(s, e) && Ordered(s)
    ensures Ordered(Apply(s, e))
  {
    match e
    case Receive(day) => AggregateHeadOrdered(s, day);
    case DrainOne(day) => AggregateHeadOrdered(s, day);
    case Track(a) => assert s.accepted + [a] == Activities(s.aggregated) + (s.queue + [a]) + s.unread;
    case Close => assert s.accepted == Activities(s.aggregated) + [] + s.queue;
    case _ =>
  }

  lemma StepKeepsInv(s: State, e: Step)
    requires Enabled(s, e) && Inv(s)
    ensures Inv(Apply(s, e))
  {
    StepOrdered(s, e);
    forall kind, k
      ensures Balanced(Apply(s, e), kind, k) && Narrow(Apply(s, e), kind, k)
    {
      assert Balanced(s, kind, k) && Narrow(s, kind, k);
      StepBalanced(s, e, kind, k);
    }
  }

  lemma {:induction false} RunKeepsInv(s: State, es: seq<Step>)
    requires IsRun(s, es) && Inv(s)
    ensures Inv(Final(s, es))
    decreases |es|
  {
    hide Inv, Apply, Enabled;
    if es != [] {
      StepKeepsInv(s, es[0]);
      RunKeepsInv(Apply(s, es[0]), es[1..]);
    }
  }

  /**
   Conservation over every interleaving: for each kind, entity and day the aggregated activities are
   pending, in the channel, in the flusher's hand, written, lost or overflowed; and the accepted
   activities are, in order, the aggregated, the queued and the unread ones.
   */
  lemma {:induction false} Conservation(es: seq<Step>)
    requires IsRun(INIT, es)
    ensures Inv(Final(INIT, es))
  {
    assert Inv(INIT);
    RunKeepsInv(INIT, es);
  }

  // ---- Shutdown -------------------------------------------------------------------------------

  /** Both workers are done; the flusher may have died. */
  ghost predicate AtEnd(s: State) {
    s.aggregator == Stopped && !Alive(s.flusher)
  }

  /** The tables hold exactly what was tracked: the same activities, each under the day it was aggregated. */
  ghost predicate Exact(s: State) {
    && Activities(s.aggregated) == s.accepted
    && forall kind, k :: Get(s.written.Of(kind), k) == Count(s.aggregated, kind, k)
  }

  ghost predicate Zero(t: Totals) {
    forall kind, k :: Get(t.Of(kind), k) == 0
  }

  /** Nothing came late and nothing has been lost or has overflowed so far. */
  ghost predicate Intact(s: State) {
    s.late == [] && Zero(s.lost) && Zero(s.overflowed)
  }

  lemma AtEndAt(s: State, kind: Kind, k: Key)
    requires Inv(s) && AtEnd(s)
    ensures Count(s.aggregated, kind, k) ==
            Get(s.written.Of(kind), k) + Get(s.lost.Of(kind), k) + Get(s.overflowed.Of(kind), k)
  {
    hide Count;
    assert Balanced(s, kind, k);
    assert s.pending == NO_TOTALS;
    NothingAt(kind, k);
  }

  lemma ExactIffIntact(s: State)
    requires Inv(s) && AtEnd(s)
    ensures Exact(s) <==> Intact(s)
  {
    hide Count;
    forall kind, k
      ensures Get(s.written.Of(kind), k) == Count(s.aggregated, kind, k)
         <==> Get(s.lost.Of(kind), k) == 0 && Get(s.overflowed.Of(kind), k) == 0
    {
      AtEndAt(s, kind, k);
    }
    assert s.accepted == Activities(s.aggregated) + [] + s.late;
    assert |s.accepted| == |Activities(s.aggregated)| + |s.late|;
  }

  /** The counts a step throws away: a final batch nobody takes, an update that is refused or filtered, a death. */
  function Loss(s: State, e: Step): Totals
    requires Enabled(s, e)
  {
    match e
    case FinalRefused => s.pending
    case Write(ok, inactive) => NO_TOTALS.Put(s.flusher.next, Dropped(s.flusher.batch.Of(s.flusher.next), ok, inactive))
    case Die => AddTotals(InHand(s.flusher), Sum(s.channel))
    case _ => NO_TOTALS
  }

  /** Aggregating the head of the queue wraps its 32-bit total. */
  predicate Wraps(s: State, e: Step)
    requires Enabled(s, e)
  {
    match e
    case Receive(day) => Get(s.pending.Of(s.queue[0].kind), (s.queue[0].id, day)) + 1 == U32
    case DrainOne(day) => Get(s.pending.Of(s.queue[0].kind), (s.queue[0].id, day)) + 1 == U32
    case _ => false
  }

  /** A step after which the tables can no longer be exact. */
  ghost predicate Spoils(s: State, e: Step)
    requires Enabled(s, e)
  {
    (e.Track? && s.aggregator == Closing) || !Zero(Loss(s, e)) || Wraps(s, e)
  }

  ghost predicate Unspoilt(s: State, es: seq<Step>)
    requires IsRun(s, es)
    decreases |es|
  {
    es == [] || (!Spoils(s, es[0]) && Unspoilt(Apply(s, es[0]), es[1..]))
  }

  lemma LossAt(s: State, e: Step, kind: Kind, k: Key)
    requires Enabled(s, e)
    ensures Get(Apply(s, e).lost.Of(kind), k) == Get(s.lost.Of(kind), k) + Get(Loss(s, e).Of(kind), k)
  {
    hide Get, Add, Sum, InHand, AggregateHead, Dropped, Kept;
    NothingAt(kind, k);
    match e
    case FinalRefused => AddAt(s.lost, s.pending, kind, k);
    case Write(ok, inactive) =>
      PutAddAt(s.lost, Dropped(s.flusher.batch.Of(s.flusher.next), ok, inactive), s.flusher.next, kind, k);
    case Die => AddAt(s.lost, AddTotals(InHand(s.flusher), Sum(s.channel)), kind, k);
    case Receive(day) => AggregateKeepsLost(s, day);
    case DrainOne(day) => AggregateKeepsLost(s, day);
    case _ =>
  }

  lemma AggregateKeepsLost(s: State, day: Day)
    requires s.queue != []
    ensures AggregateHead(s, day).lost == s.lost && AggregateHead(s, day).late == s.late
  {
  }

  lemma LossesAddUp(s: State, e: Step)
    requires Enabled(s, e)
    ensures Zero(Apply(s, e).lost) <==> Zero(s.lost) && Zero(Loss(s, e))
  {
    hide Apply, Loss, Get;
    forall kind, k
      ensures Get(Apply(s, e).lost.Of(kind), k) == Get(s.lost.Of(kind), k) + Get(Loss(s, e).Of(kind), k)
    {
      LossAt(s, e, kind, k);
    }
  }

  lemma OverflowGrows(s: State, day: Day)
    requires s.queue != []
    ensures Zero(AggregateHead(s, day).overflowed) <==>
            Zero(s.overflowed) && Get(s.pending.Of(s.queue[0].kind), (s.queue[0].id, day)) + 1 != U32
  {
    hide AggregateHead, Get;
    var s', a := AggregateHead(s, day), s.queue[0];
    forall kind, k
      ensures Get(s'.overflowed.Of(kind), k) == Get(s.overflowed.Of(kind), k) +
              if a.kind == kind && (a.id, day) == k && Get(s.pending.Of(kind), k) + 1 == U32 then U32 else 0
    {
      OverflowAt(s, day, kind, k);
    }
    assert Get(s'.overflowed.Of(a.kind), (a.id, day)) >= Get(s.overflowed.Of(a.kind), (a.id, day));
  }

  lemma StepKeepsIntactIff(s: State, e: Step)
    requires Enabled(s, e)
    ensures Intact(Apply(s, e)) <==> Intact(s) && !Spoils(s, e)
  {
    hide Zero, Loss, Get, AggregateHead;
    LossesAddUp(s, e);
    match e
    case Receive(day) => OverflowGrows(s, day); AggregateKeepsLost(s, day);
    case DrainOne(day) => OverflowGrows(s, day); AggregateKeepsLost(s, day);
    case _ =>
  }

  lemma {:induction false} RunKeepsIntactIff(s: State, es: seq<Step>)
    requires IsRun(s, es)
    ensures Intact(Final(s, es)) <==> Intact(s) && Unspoilt(s, es)
    decreases |es|
  {
    hide Intact, Apply, Enabled, Spoils;
    if es != [] {
      StepKeepsIntactIff(s, es[0]);
      RunKeepsIntactIff(Apply(s, es[0]), es[1..]);
    }
  }

  /**
   Exact condition on the steps of a run: once both workers are done, the tables hold exactly what was
   tracked if and only if no activity was accepted after the drain saw an empty queue, no step threw a
   non-zero count away, and no aggregation wrapped.
   */
  lemma {:induction false} ShutdownIsExactIff(es: seq<Step>)
    requires IsRun(INIT, es) && AtEnd(Final(INIT, es))
    ensures Exact(Final(INIT, es)) <==> Unspoilt(INIT, es)
  {
    hide IsRun, Final, Inv, Exact, AtEnd, Unspoilt;
    Conservation(es);
    ExactIffIntact(Final(INIT, es));
    RunKeepsIntactIff(INIT, es);
    assert Intact(INIT);
  }

  /** The run in which one activity is tracked between the end of the drain and the end of the aggregator. */
  lemma LateTrackWitness(a: Activity)
    ensures var es := [Cancel, SeeCancel, DrainEnd, Track(a), Close, End];
            && IsRun(INIT, es) && AtEnd(Final(INIT, es))
            && Final(INIT, es).accepted == [a] && Final(INIT, es).written == NO_TOTALS && !Exact(Final(INIT, es))
  {
    hide IsRun, Final, Inv;
    var tail := [Track(a), Close, End];
    TrackedWhileClosing(a);
    assert ([DrainEnd] + tail)[1..] == tail && ([SeeCancel, DrainEnd] + tail)[1..] == [DrainEnd] + tail;
    assert ([Cancel, SeeCancel, DrainEnd] + tail)[1..] == [SeeCancel, DrainEnd] + tail;
    RunCons(INIT.(cancelled := true, aggregator := Draining), [DrainEnd] + tail);
    RunCons(INIT.(cancelled := true), [SeeCancel, DrainEnd] + tail);
    RunCons(INIT, [Cancel, SeeCancel, DrainEnd] + tail);
    assert [Cancel, SeeCancel, DrainEnd] + tail == [Cancel, SeeCancel, DrainEnd, Track(a), Close, End];
    assert |Activities([])| == 0;
  }

  lemma TrackedWhileClosing(a: Activity)
    ensures var s, es := INIT.(cancelled := true, aggregator := Closing), [Track(a), Close, End];
            && IsRun(s, es)
            && Final(s, es) == s.(aggregator := Stopped, flusher := Ended, unread := [a], accepted := [a], late := [a])
  {
    hide IsRun, Final;
    var s := INIT.(cancelled := true, aggregator := Closing);
    var tracked := s.(queue := [a], accepted := [a], late := [a]);
    var stopped := tracked.(aggregator := Stopped, unread := [a], queue := []);
    assert Apply(s, Track(a)) == tracked by {
      assert s.queue + [a] == s.accepted + [a] == s.late + [a] == [a];
    }
    assert Apply(tracked, Close) == stopped;
    assert [End][1..] == [] && [Close, End][1..] == [End] && [Track(a), Close, End][1..] == [Close, End];
    EmptyRun(stopped.(flusher := Ended));
    RunCons(stopped, [End]);
    RunCons(tracked, [Close, End]);
    RunCons(s, [Track(a), Close, End]);
  }

  lemma EmptyRun(s: State)
    ensures IsRun(s, []) && Final(s, []) == s
  {
  }

  lemma RunCons(s: State, es: seq<Step>)
    requires es != [] && Enabled(s, es[0]) && IsRun(Apply(s, es[0]), es[1..])
    ensures IsRun(s, es) && Final(s, es) == Final(Apply(s, es[0]), es[1..])
  {
  }

  /** No update was refused or filtered and the flusher did not die. */
  ghost predicate NoFailure(es: seq<Step>) {
    forall i :: 0 <= i < |es| ==> es[i] != Die && (es[i].Write? ==> es[i].ok && es[i].inactive == {})
  }

  ghost predicate NoTrackWhileClosing(s: State, es: seq<Step>)
    requires IsRun(s, es)
    decreases |es|
  {
    es == [] || (!(es[0].Track? && s.aggregator == Closing) && NoTrackWhileClosing(Apply(s, es[0]), es[1..]))
  }

  lemma SafeStep(s: State, e: Step)
    requires Enabled(s, e) && Ordered(s) && s.flusher != Dead && e != Die && (e.Write? ==> e.ok && e.inactive == {})
    ensures Zero(Loss(s, e)) && Apply(s, e).flusher != Dead
  {
    hide Activities;
  }

  /** Without a failure counts are lost only by late tracks and wrapping totals. */
  lemma {:induction false} NoFailureLosesNothing(s: State, es: seq<Step>)
    requires IsRun(s, es) && NoFailure(es) && Ordered(s) && s.flusher != Dead && Zero(s.lost)
    ensures Zero(Final(s, es).lost)
    decreases |es|
  {
    hide Apply, Enabled, Ordered, Zero, Loss;
    if es != [] {
      StepOrdered(s, es[0]);
      SafeStep(s, es[0]);
      LossesAddUp(s, es[0]);
      NoFailureLosesNothing(Apply(s, es[0]), es[1..]);
    }
  }

  lemma {:induction false} CountBounded(log: seq<(Activity, Day)>, kind: Kind, k: Key)
    ensures Count(log, kind, k) <= |log|
  {
    if log != [] { CountBounded(log[..|log| - 1], kind, k); }
  }

  lemma FewActivitiesDoNotOverflow(s: State, kind: Kind, k: Key)
    requires Inv(s) && |s.accepted| < U32
    ensures Get(s.overflowed.Of(kind), k) == 0
  {
    hide Sum, InHand, Count;
    assert Balanced(s, kind, k) && Narrow(s, kind, k);
    CountBounded(s.aggregated, kind, k);
  }

  /** What came late was tracked while the aggregator was closing. */
  lemma {:induction false} LateIffTrackWhileClosing(s: State, es: seq<Step>)
    requires IsRun(s, es)
    ensures Final(s, es).late == [] <==> s.late == [] && NoTrackWhileClosing(s, es)
    decreases |es|
  {
    hide Enabled, AggregateHead;
    if es != [] {
      LateStep(s, es[0]);
      hide Apply;
      LateIffTrackWhileClosing(Apply(s, es[0]), es[1..]);
    }
  }

  lemma LateStep(s: State, e: Step)
    requires Enabled(s, e)
    ensures Apply(s, e).late == [] <==> s.late == [] && !(e.Track? && s.aggregator == Closing)
  {
    if e.Receive? || e.DrainOne? { AggregateKeepsLost(s, e.day); }
    hide AggregateHead;
  }

  /**
   Shutdown completeness: after cancellation, once both workers are done, if no update failed and no
   `track` succeeded after the drain saw an empty queue, the database totals are exactly what was
   tracked.
   */
  lemma {:induction false} ShutdownCompleteness(es: seq<Step>)
    requires IsRun(INIT, es) && AtEnd(Final(INIT, es)) && NoFailure(es)
    requires NoTrackWhileClosing(INIT, es) && |Final(INIT, es).accepted| < 4294967296
    ensures Exact(Final(INIT, es))
  {
    hide IsRun, Final, Exact, NoTrackWhileClosing;
    var s := Final(INIT, es);
    Conservation(es);
    NoFailureLosesNothing(INIT, es);
    LateIffTrackWhileClosing(INIT, es);
    forall kind, k
      ensures Get(s.overflowed.Of(kind), k) == 0
    {
      FewActivitiesDoNotOverflow(s, kind, k);
    }
    ExactIffIntact(s);
  }

  /**
   Flush timing is invisible: two runs to the end that aggregate the same activities under the same
   days, wherever their ticks and sends fall, leave the same totals, provided nothing was lost.
   */
  lemma {:induction false} FlushTimingIsInvisible(es: seq<Step>, es': seq<Step>, kind: Kind, k: Key)
    requires IsRun(INIT, es) && AtEnd(Final(INIT, es)) && Unspoilt(INIT, es)
    requires IsRun(INIT, es') && AtEnd(Final(INIT, es')) && Unspoilt(INIT, es')
    requires Final(INIT, es).aggregated == Final(INIT, es').aggregated
    ensures Get(Final(INIT, es).written.Of(kind), k) == Get(Final(INIT, es').written.Of(kind), k)
  {
    hide IsRun, Final, Unspoilt, AtEnd;
    ShutdownIsExactIff(es);
    ShutdownIsExactIff(es');
  }

  // ---- A running tracker delivers ----------------------------------------------------------------

  /** A tick with nothing pending sends nothing. */
  lemma IdleTick(s: State)
    requires s.aggregator == Running && s.pending.IsEmpty()
    ensures Enabled(s, Tick) && Apply(s, Tick) == s && !Enabled(Apply(s, Tick), FlushSent)
  {
  }

  /** The queue holds 100 activities and the channel 5 batches. */
  lemma Capacities(s: State, a: Activity)
    ensures Enabled(s, Track(a)) <==> s.aggregator != Stopped && |s.queue| < 100
    ensures s.aggregator == Flushing && Alive(s.flusher) ==> (Enabled(s, FlushSent) <==> |s.channel| < 5)
    ensures s.aggregator == Closing && Alive(s.flusher) && !s.pending.IsEmpty() ==> (Enabled(s, FinalSent) <==> |s.channel| < 5)
  {
  }

  /** Sending the batch and writing it to the tables. */
  predicate FlushStep(e: Step) {
    e == FlushSent || e == Take || e == Write(true, {})
  }

  /** The aggregator is not on its way out and the flusher is alive. */
  predicate Serving(s: State) {
    (s.aggregator == Running || s.aggregator == Flushing) && Alive(s.flusher)
  }

  /** Nothing is on its way to the tables any more. */
  predicate Delivered(s: State) {
    s.aggregator == Running && s.channel == [] && s.flusher == Waiting
  }

  function NextFlush(s: State): Step {
    if s.aggregator == Flushing && |s.channel| < CHANNEL_CAPACITY then FlushSent
    else if s.flusher.Writing? then Write(true, {})
    else Take
  }

  function FlushWork(s: State): nat {
    (if s.aggregator == Flushing then 10 else 0) + 5 * |s.channel| + FlusherWork(s.flusher)
  }

  /** What flushing leaves alone; a batch that is being sent is no longer pending. */
  ghost predicate FlushKeeps(s: State, t: State) {
    && t.queue == s.queue && t.accepted == s.accepted && t.aggregated == s.aggregated && t.unread == s.unread
    && t.late == s.late && t.overflowed == s.overflowed && t.cancelled == s.cancelled
    && (t.pending == s.pending || (s.aggregator == Flushing && t.pending == NO_TOTALS))
    && (s.aggregator == Flushing && t.aggregator == Running ==> t.pending == NO_TOTALS)
    && (s.aggregator == Running ==> t.aggregator == Running)
    && forall kind, k :: Get(t.lost.Of(kind), k) == Get(s.lost.Of(kind), k)
  }

  lemma FlushNext(s: State)
    requires Serving(s) && !Delivered(s)
    ensures var e := NextFlush(s);
            && Enabled(s, e) && FlushStep(e) && Serving(Apply(s, e))
            && FlushWork(Apply(s, e)) < FlushWork(s) && FlushKeeps(s, Apply(s, e))
  {
    hide Get, Add, Kept, Sum, InHand;
    var e := NextFlush(s);
    forall kind, k
      ensures Get(Apply(s, e).lost.Of(kind), k) == Get(s.lost.Of(kind), k)
    {
      LossAt(s, e, kind, k);
      NothingAt(kind, k);
      if e.Write? { NothingDropped(s.flusher.batch.Of(s.flusher.next)); }
    }
  }

  lemma NothingDropped(m: Counters)
    ensures Dropped(m, true, {}) == map[]
  {
  }

  lemma FlushKeepsChain(s: State, t: State, u: State)
    requires Serving(s) && Serving(t) && FlushKeeps(s, t) && FlushKeeps(t, u)
    ensures FlushKeeps(s, u)
  {
    hide Get;
    forall kind, k
      ensures Get(u.lost.Of(kind), k) == Get(s.lost.Of(kind), k)
    {
      assert Get(t.lost.Of(kind), k) == Get(s.lost.Of(kind), k);
    }
  }

  /** Sends what is to be sent and writes everything that has been sent. */
  lemma {:induction false} FlushOut(s: State) returns (es: seq<Step>)
    requires Serving(s)
    ensures IsRun(s, es) && (forall i :: 0 <= i < |es| ==> FlushStep(es[i]))
    ensures Delivered(Final(s, es)) && FlushKeeps(s, Final(s, es))
    decreases FlushWork(s)
  {
    hide Apply, Enabled, FlushWork, NextFlush, FlushStep, Serving, Delivered, FlushKeeps;
    if Delivered(s) {
      es := [];
      assert FlushKeeps(s, s) by { FlushKeepsSelf(s); }
    } else {
      FlushNext(s);
      var e := NextFlush(s);
      var rest := FlushOut(Apply(s, e));
      es := [e] + rest;
      assert es[0] == e && es[1..] == rest;
      FlushKeepsChain(s, Apply(s, e), Final(Apply(s, e), rest));
    }
  }

  lemma FlushKeepsSelf(s: State)
    requires Delivered(s)
    ensures FlushKeeps(s, s)
  {
  }

  /** With nothing on its way, what was aggregated is written, or was lost or overflowed before. */
  lemma DeliveredAt(s: State, kind: Kind, k: Key)
    requires Inv(s) && Delivered(s) && s.pending == NO_TOTALS
    ensures Get(s.written.Of(kind), k) + Get(s.lost.Of(kind), k) + Get(s.overflowed.Of(kind), k) == Count(s.aggregated, kind, k)
  {
    hide Count;
    assert Balanced(s, kind, k);
    NothingAt(kind, k);
  }

  /**
   A tick delivers: from every reachable running state with a pending batch and a live flusher, one tick
   followed by sending and accepted writes brings every count aggregated so far into the tables, except
   what had been lost or had overflowed before, and leaves the tracker running with nothing under way.
   */
  lemma {:induction false} TickDelivers(s: State) returns (es: seq<Step>)
    requires Inv(s) && s.aggregator == Running && Alive(s.flusher) && !s.pending.IsEmpty()
    ensures es != [] && es[0] == Tick && (forall i :: 1 <= i < |es| ==> FlushStep(es[i])) && IsRun(s, es)
    ensures var t := Final(s, es);
            && Delivered(t) && t.pending == NO_TOTALS && t.aggregated == s.aggregated && t.queue == s.queue
            && t.accepted == s.accepted && t.overflowed == s.overflowed && Inv(t)
            && forall kind, k :: (
                 Get(t.written.Of(kind), k) + Get(s.lost.Of(kind), k) + Get(s.overflowed.Of(kind), k) == Count(s.aggregated, kind, k))
  {
    hide Inv, Count, FlushStep, Get;
    var s1 := Apply(s, Tick);
    assert s1 == s.(aggregator := Flushing);
    var rest := FlushOut(s1);
    es := [Tick] + rest;
    assert es[0] == Tick && es[1..] == rest;
    var t := Final(s1, rest);
    RunKeepsInv(s, es);
    forall kind, k
      ensures Get(t.written.Of(kind), k) + Get(s.lost.Of(kind), k) + Get(s.overflowed.Of(kind), k) == Count(s.aggregated, kind, k)
    {
      DeliveredAt(t, kind, k);
    }
  }

  lemma {:induction false} RunConcat(s: State, a: seq<Step>, b: seq<Step>)
    requires IsRun(s, a) && IsRun(Final(s, a), b)
    ensures IsRun(s, a + b) && Final(s, a + b) == Final(Final(s, a), b)
    decreases |a|
  {
    hide Enabled, Apply;
    if a == [] {
      assert a + b == b;
    } else {
      assert (a + b)[0] == a[0] && (a + b)[1..] == a[1..] + b;
      RunConcat(Apply(s, a[0]), a[1..], b);
    }
  }

  /** The aggregator takes everything out of the queue. */
  lemma {:induction false} ReceiveAll(s: State, day: Day) returns (es: seq<Step>)
    requires s.aggregator == Running
    ensures es == seq(|s.queue|, _ => Receive(day)) && IsRun(s, es)
    ensures var t := Final(s, es);
            && t.aggregator == Running && t.queue == [] && t.flusher == s.flusher && t.accepted == s.accepted && t.lost == s.lost
    decreases |s.queue|
  {
    if s.queue == [] {
      es := [];
    } else {
      hide Aggregate, Add;
      var rest := ReceiveAll(Apply(s, Receive(day)), day);
      es := [Receive(day)] + rest;
      assert es[0] == Receive(day) && es[1..] == rest;
    }
  }

  /** Tracking, receiving and flushing; nothing that ends a worker. */
  predicate Ordinary(e: Step) {
    e.Track? || e.Receive? || e.Tick? || FlushStep(e)
  }

  lemma TrackAndReceive(s: State, a: Activity, day: Day) returns (es: seq<Step>)
    requires Inv(s) && s.aggregator == Running && s.queue == []
    ensures es == [Track(a), Receive(day)] && IsRun(s, es)
    ensures var t := Final(s, es);
            && Inv(t) && t.aggregator == Running && t.flusher == s.flusher && t.queue == [] && !t.pending.IsEmpty()
            && t.accepted == s.accepted + [a] && t.lost == s.lost && t.aggregated == s.aggregated + [(a, day)]
  {
    es := [Track(a), Receive(day)];
    var s1 := Apply(s, Track(a));
    assert s1.queue == [a];
    assert es[1..] == [Receive(day)] && es[1..][1..] == [];
    var s2 := Apply(s1, Receive(day));
    assert (a.id, day) in s2.pending.Of(a.kind);
    hide Apply, Enabled;
    assert IsRun(s2, []) && IsRun(s1, [Receive(day)]) && Final(s1, [Receive(day)]) == s2;
    RunKeepsInv(s, es);
  }

  /**
   An activity tracked while the tracker is running gets into the tables without any shutdown: from every
   reachable running state with a live flusher there is a run of ordinary steps that accepts it, leaves
   nothing queued or under way, and has every accepted activity aggregated and written, except what had
   been lost before or overflowed.
   */
  lemma {:induction false} TrackedIsDelivered(s: State, a: Activity, day: Day) returns (es: seq<Step>)
    requires Inv(s) && s.aggregator == Running && Alive(s.flusher)
    ensures IsRun(s, es) && forall i :: 0 <= i < |es| ==> Ordinary(es[i])
    ensures var t := Final(s, es);
            && Delivered(t) && t.queue == [] && t.pending == NO_TOTALS
            && t.accepted == s.accepted + [a] && Activities(t.aggregated) == t.accepted
            && forall kind, k :: (
                 Get(t.written.Of(kind), k) + Get(s.lost.Of(kind), k) + Get(t.overflowed.Of(kind), k) == Count(t.aggregated, kind, k))
  {
    hide IsRun, Final, Count, Get, Apply, Enabled, Balanced, Narrow;
    var first := ReceiveAll(s, day);
    var s1 := Final(s, first);
    RunKeepsInv(s, first);
    var second := TrackAndReceive(s1, a, day);
    var s2 := Final(s1, second);
    var third := TickDelivers(s2);
    RunConcat(s, first, second);
    RunConcat(s, first + second, third);
    es := first + second + third;
    var t := Final(s, es);
    assert t.accepted == Activities(t.aggregated) + t.queue + t.unread;
  }

  // ---- A cancelled tracker always gets to its end ------------------------------------------

  function FlusherWork(f: Flusher): nat {
    match f
    case Waiting => 1
    case Writing(_, Community) => 4
    case Writing(_, Event) => 3
    case Writing(_, Group) => 2
    case Ended => 0
    case Dead => 0
  }

  function AggregatorWork(s: State): nat {
    match s.aggregator
    case Flushing => 40
    case Running => 30
    case Draining => 20
    case Closing => if s.pending.IsEmpty() then 10 else 16
    case Stopped => 0
  }

  /** Steps left when no more activities arrive. */
  function Work(s: State): nat {
    AggregatorWork(s) + 5 * |s.channel| + FlusherWork(s.flusher) + |s.queue|
  }

  /** A step the two workers take by themselves. */
  predicate WorkerStep(e: Step) {
    !e.Track? && !e.Tick? && !e.Cancel? && !e.Die?
  }

  /** The step the workers take next once the token is cancelled. */
  function NextStep(s: State, day: Day): Step {
    match s.aggregator
    case Running => SeeCancel
    case Draining => if s.queue != [] then DrainOne(day) else DrainEnd
    case Closing =>
      if s.pending.IsEmpty() then Close
      else if !Alive(s.flusher) then FinalRefused
      else if |s.channel| < CHANNEL_CAPACITY then FinalSent
      else if s.flusher.Writing? then Write(true, {}) else Take
    case Flushing =>
      if !Alive(s.flusher) then FlushRefused
      else if |s.channel| < CHANNEL_CAPACITY then FlushSent
      else if s.flusher.Writing? then Write(true, {}) else Take
    case Stopped => if s.flusher.Writing? then Write(true, {}) else if s.channel != [] then Take else End
  }

  /** Every step of a worker brings the end nearer. */
  lemma StepsShrinkWork(s: State, e: Step)
    requires Enabled(s, e) && WorkerStep(e)
    ensures Work(Apply(s, e)) < Work(s) && Apply(s, e).cancelled == s.cancelled
  {
    hide Aggregate, Add, Sum, InHand;
  }

  /** After cancellation the workers are never stuck. */
  lemma Progress(s: State, day: Day)
    requires s.cancelled && !AtEnd(s)
    ensures WorkerStep(NextStep(s, day)) && Enabled(s, NextStep(s, day))
  {
  }

  ghost predicate WorkersOnly(es: seq<Step>) {
    forall i :: 0 <= i < |es| ==> WorkerStep(es[i])
  }

  lemma {:induction false} WorkerRunsAreBounded(s: State, es: seq<Step>)
    requires IsRun(s, es) && WorkersOnly(es)
    ensures |es| + Work(Final(s, es)) <= Work(s) && Final(s, es).cancelled == s.cancelled
    decreases |es|
  {
    hide Apply, Enabled, Work, WorkerStep;
    if es != [] {
      StepsShrinkWork(s, es[0]);
      WorkerRunsAreBounded(Apply(s, es[0]), es[1..]);
    }
  }

  /**
   Whatever order the two workers take their steps in after cancellation, a run in which nothing else
   happens has at most `Work` steps, and if no worker can take another one, both are done.
   */
  lemma {:induction false} ShutdownTerminates(s: State, es: seq<Step>)
    requires s.cancelled && IsRun(s, es) && WorkersOnly(es)
    ensures |es| <= Work(s)
    ensures (forall e :: WorkerStep(e) ==> !Enabled(Final(s, es), e)) <==> AtEnd(Final(s, es))
  {
    hide Apply, IsRun, Final;
    WorkerRunsAreBounded(s, es);
    if !AtEnd(Final(s, es)) { Progress(Final(s, es), ""); }
  }

  /** From every state in which the token is cancelled the two workers alone can reach the end. */
  lemma {:induction false} ShutdownIsReachable(s: State, day: Day) returns (es: seq<Step>)
    requires s.cancelled
    ensures IsRun(s, es) && AtEnd(Final(s, es)) && WorkersOnly(es)
    decreases Work(s)
  {
    hide Apply, Enabled, Work, NextStep, AtEnd, WorkerStep;
    if AtEnd(s) {
      es := [];
    } else {
      Progress(s, day);
      var e := NextStep(s, day);
      StepsShrinkWork(s, e);
      var rest := ShutdownIsReachable(Apply(s, e), day);
      es := [e] + rest;
      assert es[0] == e && es[1..] == rest;
    }
  }
}
