/** Leaving an event: one transaction for the departure and its required notification. */
module LeaveEvent {
  import opened Wrappers
  import opened UnitOfWork

  datatype EnrollmentStatus =
    | Attendee
    | InvitationApproved
    | NotEnrolled
    | OfferExpired
    | PendingApproval
    | PendingPayment
    | RegistrationQuestionsPending
    | Rejected
    | Waitlisted

  const LEFT: Effect := "leave event"
  const NOTIFIED: Effect := "cancellation notification"

  function EnqueueCancellation(status: EnrollmentStatus, payloadBuilds: bool): Callback<EnrollmentStatus> {
    if payloadBuilds then Do([NOTIFIED], Return(Ok(status)), Return(Err("enqueue failed")))
    else Return(Err("payload failed"))
  }

  function LoadEventAndEnqueue(status: EnrollmentStatus, payloadBuilds: bool): Callback<EnrollmentStatus> {
    Do([], EnqueueCancellation(status, payloadBuilds), Return(Err("event not loaded")))
  }

  /** `enqueue_event_attendance_cancellation_notifications`: two reads, a payload, one enqueue. */
  function NotifyCancellation(status: EnrollmentStatus, payloadBuilds: bool): Callback<EnrollmentStatus> {
    Do([], LoadEventAndEnqueue(status, payloadBuilds), Return(Err("settings not loaded")))
  }

  /** The transaction callback, given the status the database says the user left from. */
  function LeaveCallback(status: EnrollmentStatus, payloadBuilds: bool): Callback<EnrollmentStatus> {
    Do([LEFT],
       if status == Attendee then NotifyCancellation(status, payloadBuilds) else Return(Ok(status)),
       Return(Err("leave failed")))
  }

  datatype Response = Left(status: EnrollmentStatus) | Error(failure: Failure) | Panic | NoResponse

  /** Best-effort work after the transaction when the user left the waiting list. */
  datatype Notice = ContextFails | BuildFails | EnqueueFails | Enqueued

  /** How a request to leave goes: what the database says, and when, if ever, the caller goes away. */
  datatype Leaving = Leaving(status: EnrollmentStatus, payloadBuilds: bool, cut: Option<nat>, stop: Stop, hasRuntime: bool)

  function CallbackOf(l: Leaving): Callback<EnrollmentStatus> {
    var f := LeaveCallback(l.status, l.payloadBuilds);
    if l.cut.Some? then Cut(f, l.cut.value) else f
  }

  function LeaveSpec(s: Session, l: Leaving, replies: nat -> Reply): TxRun<EnrollmentStatus> {
    TransactionSpec(s, CallbackOf(l), replies, l.stop, l.hasRuntime)
  }

  method LeaveEvent(pooled: PgClient?, l: Leaving, notice: Notice) returns (response: Response, waitlistNotified: bool)
    modifies pooled
    ensures pooled == null ==> response == Error(NoClient)
    ensures pooled != null ==>
      var spec := LeaveSpec(old(pooled.session), l, pooled.replies);
      && pooled.session == spec.session
      && (spec.result.Failed? ==> response == Error(spec.result.failure)) && (spec.result.Abandoned? ==> response == NoResponse)
      && (spec.result.Done? ==> response == if l.status in {Attendee, PendingApproval, Waitlisted} then Left(l.status) else Panic)
    ensures pooled != null && Undisturbed(old(pooled.session), l) ==>
      (response == Left(l.status) <==>
       l.status in {Attendee, PendingApproval, Waitlisted} && GoesThrough(l, pooled.replies, |old(pooled.session).trace|))
    ensures waitlistNotified <==> response == Left(Waitlisted) && notice == Enqueued
  {
    hide GoesThrough, CallbackOf, TransactionSpec;
    if pooled != null && Undisturbed(pooled.session, l) { LeaveDoneIff(pooled.session, l, pooled.replies); }
    waitlistNotified := false;
    var r, _ := Transaction(pooled, CallbackOf(l), l.stop, l.hasRuntime);
    if r.Failed? {
      return Error(r.failure), false;
    }
    if r.Abandoned? {
      return NoResponse, false;
    }
    assert r.value == l.status by {
      ReturnsStatus(old(pooled.session), l, pooled.replies);
    }
    match r.value {
      case Waitlisted =>
        match notice {
          case ContextFails => return Left(r.value), false;
          case BuildFails =>
          case EnqueueFails =>
          case Enqueued => waitlistNotified := true;
        }
      case Attendee =>
      case PendingApproval =>
      case _ => return Panic, false;
    }
    response := Left(r.value);
  }

  /** A session that can start a transaction and a caller that stays. */
  predicate Undisturbed(s: Session, l: Leaving) {
    !s.broken && s.tx != Aborted && l.cut.None? && l.stop == Never
  }

  /**
   Begin, the departure and the commit are accepted; for an attendee also the two reads and the enqueued
   notification, whose payload builds.
   */
  predicate GoesThrough(l: Leaving, replies: nat -> Reply, first: nat) {
    if l.status == Attendee then l.payloadBuilds && AllAccepted(replies, first, 6) else AllAccepted(replies, first, 3)
  }

  /** Exact condition for leaving to succeed. */
  lemma {:induction false} LeaveDoneIff(s: Session, l: Leaving, replies: nat -> Reply)
    requires Undisturbed(s, l)
    ensures LeaveSpec(s, l, replies).result.Done? <==> GoesThrough(l, replies, |s.trace|)
  {
    hide TransactionSpec, AllAccepted, IsChain, NeverReturns, ReturnsValue, RunCallback;
    var f := LeaveCallback(l.status, l.payloadBuilds);
    if l.status == Attendee && !l.payloadBuilds {
      UnbuiltNeverReturns();
      NeverReturnsNoValue(Begun(s, replies), f, replies);
      DoneIff(s, f, replies, Never, l.hasRuntime);
    } else {
      LeaveIsChain(l.status, l.payloadBuilds);
      ChainDoneIff(s, f, if l.status == Attendee then 4 else 1, replies, l.hasRuntime);
    }
  }

  lemma LeaveIsChain(status: EnrollmentStatus, payloadBuilds: bool)
    requires status == Attendee ==> payloadBuilds
    ensures IsChain(LeaveCallback(status, payloadBuilds), if status == Attendee then 4 else 1)
  {
    var value: Callback<EnrollmentStatus> := Return(Ok(status));
    assert IsChain(value, 0);
    if status == Attendee {
      assert IsChain(EnqueueCancellation(status, payloadBuilds), 1);
      assert IsChain(LoadEventAndEnqueue(status, payloadBuilds), 2);
      assert IsChain(NotifyCancellation(status, payloadBuilds), 3);
    }
  }

  lemma UnbuiltNeverReturns()
    ensures NeverReturns(LeaveCallback(Attendee, false))
  {
    assert forall error :: NeverReturns<EnrollmentStatus>(Return(Err(error)));
    assert NeverReturns(EnqueueCancellation(Attendee, false));
    assert NeverReturns(LoadEventAndEnqueue(Attendee, false));
    assert NeverReturns(NotifyCancellation(Attendee, false));
  }

  lemma ReturnsStatus(s: Session, l: Leaving, replies: nat -> Reply)
    requires LeaveSpec(s, l, replies).result.Done?
    ensures LeaveSpec(s, l, replies).result == Done(l.status)
  {
    hide Issue, RunCallback;
    StatusOnly(Begun(s, replies), l, replies);
  }

  /** Whatever statements fail, the callback returns the status it was given, an error, or nothing. */
  lemma StatusOnly(s: Session, l: Leaving, replies: nat -> Reply)
    ensures var r := RunCallback(s, CallbackOf(l), replies).result; r.None? || r.value.Err? || r.value == Ok(l.status)
  {
    hide RunCallback, Cut;
    LeaveYields(l.status, l.payloadBuilds);
    if l.cut.Some? { CutYields(LeaveCallback(l.status, l.payloadBuilds), l.cut.value, l.status); }
    OnlyResult(s, CallbackOf(l), replies, l.status);
  }

  predicate Yields(f: Callback<EnrollmentStatus>, status: EnrollmentStatus) {
    match f
    case Return(r) => r.Err? || r == Ok(status)
    case Gone => true
    case Do(_, onOk, onErr) => Yields(onOk, status) && Yields(onErr, status)
  }

  lemma LeaveYields(status: EnrollmentStatus, payloadBuilds: bool)
    ensures Yields(LeaveCallback(status, payloadBuilds), status)
  {
    var value: Callback<EnrollmentStatus> := Return(Ok(status));
    assert Yields(value, status);
    assert forall error :: Yields(Return(Err(error)), status);
    assert Yields(EnqueueCancellation(status, payloadBuilds), status);
    assert Yields(LoadEventAndEnqueue(status, payloadBuilds), status);
    assert Yields(NotifyCancellation(status, payloadBuilds), status);
  }

  lemma {:induction false} CutYields(f: Callback<EnrollmentStatus>, n: nat, status: EnrollmentStatus)
    requires Yields(f, status)
    ensures Yields(Cut(f, n), status)
    decreases f
  {
    if n > 0 && f.Do? {
      CutYields(f.onOk, n - 1, status);
      CutYields(f.onErr, n - 1, status);
    }
  }

  lemma {:induction false} OnlyResult(s: Session, f: Callback<EnrollmentStatus>, replies: nat -> Reply, status: EnrollmentStatus)
    requires Yields(f, status)
    ensures var r := RunCallback(s, f, replies).result; r.None? || r.value.Err? || r.value == Ok(status)
    decreases f
  {
    if f.Do? {
      hide Issue;
      var e := Issue(s, Statement(f.effects), replies);
      OnlyResult(e.session, if e.ok then f.onOk else f.onErr, replies, status);
    }
  }

  /** The effects of a departure that goes through. */
  function Departure(status: EnrollmentStatus): seq<Effect> {
    if status == Attendee then [LEFT, NOTIFIED] else [LEFT]
  }

  lemma EnqueueEffects(s: Session, status: EnrollmentStatus, payloadBuilds: bool, replies: nat -> Reply)
    requires AllSucceed(s, EnqueueCancellation(status, payloadBuilds), replies)
    requires ReturnsValue(s, EnqueueCancellation(status, payloadBuilds), replies)
    ensures CarriedOut(s, EnqueueCancellation(status, payloadBuilds), replies) == [NOTIFIED]
  {
    hide Issue;
  }

  lemma NotifyEffects(s: Session, status: EnrollmentStatus, payloadBuilds: bool, replies: nat -> Reply)
    requires AllSucceed(s, NotifyCancellation(status, payloadBuilds), replies)
    requires ReturnsValue(s, NotifyCancellation(status, payloadBuilds), replies)
    ensures CarriedOut(s, NotifyCancellation(status, payloadBuilds), replies) == [NOTIFIED]
  {
    hide Issue, EnqueueCancellation;
    var e := Issue(s, Statement([]), replies).session;
    assert AllSucceed(e, LoadEventAndEnqueue(status, payloadBuilds), replies);
    assert ReturnsValue(e, LoadEventAndEnqueue(status, payloadBuilds), replies);
    EnqueueEffects(Issue(e, Statement([]), replies).session, status, payloadBuilds, replies);
  }

  lemma SuccessfulEffects(s: Session, status: EnrollmentStatus, payloadBuilds: bool, replies: nat -> Reply)
    requires AllSucceed(s, LeaveCallback(status, payloadBuilds), replies)
    requires ReturnsValue(s, LeaveCallback(status, payloadBuilds), replies)
    ensures CarriedOut(s, LeaveCallback(status, payloadBuilds), replies) == Departure(status)
  {
    hide Issue, NotifyCancellation;
    if status == Attendee {
      NotifyEffects(Issue(s, Statement([LEFT]), replies).session, status, payloadBuilds, replies);
    }
  }

  /** The same when the caller may go away: whoever gets a value has got all of it. */
  lemma CutEffects(s: Session, l: Leaving, replies: nat -> Reply)
    requires AllSucceed(s, CallbackOf(l), replies) && ReturnsValue(s, CallbackOf(l), replies)
    ensures CarriedOut(s, CallbackOf(l), replies) == Departure(l.status)
  {
    hide AllSucceed, RunCallback, CarriedOut, LeaveCallback, Cut;
    if l.cut.Some? { CutRunsAlike(s, LeaveCallback(l.status, l.payloadBuilds), l.cut.value, replies); }
    SuccessfulEffects(s, l.status, l.payloadBuilds, replies);
  }

  /**
   In every run, whichever step fails and whenever the caller goes away, leaving as an attendee and its
   cancellation notification are both committed or neither is; a success response means they are.
   */
  lemma {:induction false} DepartureIsAtomic(s: Session, l: Leaving, replies: nat -> Reply)
    ensures var t := LeaveSpec(s, l, replies);
            && (|| t.session.committed == s.committed
                || t.session.committed == s.committed + (Leftover(s) + Departure(l.status)))
            && (t.result.Done? ==> t.session.committed == s.committed + (Leftover(s) + Departure(l.status)))
  {
    hide RunCallback, CarriedOut, AllSucceed, Issue, Propagates, CallbackOf, Leftover;
    var f, b := CallbackOf(l), Begun(s, replies);
    AllOrNothing(s, f, replies, l.stop, l.hasRuntime);
    if AllSucceed(b, f, replies) && ReturnsValue(b, f, replies) { CutEffects(b, l, replies); }
    if LeaveSpec(s, l, replies).result.Done? {
      LeavePropagates(l);
      OkMeansAllSucceed(b, f, replies);
      DoneMeansDurable(s, f, replies, l.stop, l.hasRuntime);
    }
  }

  lemma LeavePropagates(l: Leaving)
    ensures Propagates(CallbackOf(l))
  {
    hide Cut;
    var value: Callback<EnrollmentStatus> := Return(Ok(l.status));
    assert Propagates(value);
    assert Propagates(EnqueueCancellation(l.status, l.payloadBuilds));
    assert Propagates(LoadEventAndEnqueue(l.status, l.payloadBuilds));
    assert Propagates(NotifyCancellation(l.status, l.payloadBuilds));
    assert Propagates(LeaveCallback(l.status, l.payloadBuilds));
    if l.cut.Some? { CutPropagates(LeaveCallback(l.status, l.payloadBuilds), l.cut.value); }
  }
}
